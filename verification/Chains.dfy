/**
 Pure facts about a row of chains. A chain is listed from its last link up to its head, so that putting a
 node in front of a chain appends to the sequence and leaves every older position alone.
 */
module Chains {

  /** How many links the first `b` chains hold together. */
  function Before<T>(chains: seq<seq<T>>, b: nat): nat
    requires b <= |chains|
  {
    if b == 0 then 0 else Before(chains, b - 1) + |chains[b - 1]|
  }

  /** The number of links in the whole row. */
  function Total<T>(chains: seq<seq<T>>): nat {
    Before(chains, |chains|)
  }

  /** The rank of link `j` of chain `b` when the row is walked chain by chain, each from its head. */
  function Position<T>(chains: seq<seq<T>>, b: nat, j: nat): nat
    requires b < |chains| && j < |chains[b]|
  {
    Before(chains, b) + (|chains[b]| - 1 - j)
  }

  lemma {:induction false} BeforeUpdated<T>(chains: seq<seq<T>>, i: nat, c: seq<T>, b: nat)
    requires i < |chains| && b <= |chains|
    ensures Before(chains[i := c], b) == Before(chains, b) + (if i < b then |c| - |chains[i]| else 0)
  {
    if b > 0 {
      BeforeUpdated(chains, i, c, b - 1);
    }
  }

  lemma {:induction false} BeforeGrows<T>(chains: seq<seq<T>>, b: nat, c: nat)
    requires b <= c <= |chains|
    ensures Before(chains, b) <= Before(chains, c)
  {
    if b < c {
      BeforeGrows(chains, b, c - 1);
    }
  }

  lemma {:induction false} BeforeOfEmpty<T>(chains: seq<seq<T>>, b: nat)
    requires b <= |chains|
    requires forall i :: 0 <= i < b ==> chains[i] == []
    ensures Before(chains, b) == 0
  {
    if b > 0 {
      BeforeOfEmpty(chains, b - 1);
    }
  }

  function Reversed<T>(s: seq<T>): (r: seq<T>)
    ensures |r| == |s|
    ensures forall j :: 0 <= j < |s| ==> r[|s| - 1 - j] == s[j]
  {
    seq(|s|, i requires 0 <= i < |s| => s[|s| - 1 - i])
  }

  /** The links of the first `b` chains in walking order: chain by chain, each from its head. */
  function Enumerate<T>(chains: seq<seq<T>>, b: nat): (s: seq<T>)
    requires b <= |chains|
    ensures |s| == Before(chains, b)
  {
    if b == 0 then [] else Enumerate(chains, b - 1) + Reversed(chains[b - 1])
  }

  /** Position is the rank in walking order. */
  lemma {:induction false} EnumerateAt<T>(chains: seq<seq<T>>, b: nat, j: nat, c: nat)
    requires b < c <= |chains| && j < |chains[b]|
    ensures Position(chains, b, j) < Before(chains, c)
    ensures Enumerate(chains, c)[Position(chains, b, j)] == chains[b][j]
  {
    if b + 1 < c {
      EnumerateAt(chains, b, j, c - 1);
    }
  }

  function Inserted<T>(s: seq<T>, p: nat, x: T): seq<T>
    requires p <= |s|
  {
    s[..p] + [x] + s[p..]
  }

  lemma InsertedThenMore<T>(s: seq<T>, p: nat, x: T, t: seq<T>)
    requires p <= |s|
    ensures Inserted(s, p, x) + t == Inserted(s + t, p, x)
  {
    assert (s + t)[..p] == s[..p] && (s + t)[p..] == s[p..] + t;
  }

  lemma InsertedAtEnd<T>(s: seq<T>, x: T, t: seq<T>)
    ensures s + Reversed(t + [x]) == Inserted(s + Reversed(t), |s|, x)
  {
    assert Reversed(t + [x]) == [x] + Reversed(t);
    assert (s + Reversed(t))[..|s|] == s && (s + Reversed(t))[|s|..] == Reversed(t);
  }

  /** A link put in front of chain `i` comes before all of that chain, and behind all of the earlier ones. */
  lemma {:induction false} EnumeratePushed<T>(chains: seq<seq<T>>, i: nat, x: T, b: nat)
    requires i < |chains| && b <= |chains|
    ensures i < b ==> Before(chains, i) <= Before(chains, b)
    ensures Enumerate(chains[i := chains[i] + [x]], b) ==
      if i < b then Inserted(Enumerate(chains, b), Before(chains, i), x) else Enumerate(chains, b)
  {
    if b > 0 {
      EnumeratePushed(chains, i, x, b - 1);
      hide Inserted, Reversed;
      if i == b - 1 {
        InsertedAtEnd(Enumerate(chains, i), x, chains[i]);
      } else if i < b {
        InsertedThenMore(Enumerate(chains, b - 1), Before(chains, i), x, Reversed(chains[b - 1]));
      }
    }
  }

  /** The links from the last chain down to chain `i`, each chain from its head. */
  function ScannedDown<T>(chains: seq<seq<T>>, i: nat): (s: seq<T>)
    requires i <= |chains|
    decreases |chains| - i
  {
    if i == |chains| then [] else ScannedDown(chains, i + 1) + Reversed(chains[i])
  }

  /** Where the scan meets link `j` of chain `c`. */
  lemma {:induction false} ScannedAt<T>(chains: seq<seq<T>>, i: nat, c: nat, j: nat) returns (p: nat)
    requires i <= c < |chains| && j < |chains[c]|
    ensures p == |ScannedDown(chains, c + 1)| + (|chains[c]| - 1 - j) < |ScannedDown(chains, i)|
    ensures ScannedDown(chains, i)[p] == chains[c][j]
    decreases c - i
  {
    if i < c {
      p := ScannedAt(chains, i + 1, c, j);
    } else {
      p := |ScannedDown(chains, c + 1)| + (|chains[c]| - 1 - j);
    }
  }

  lemma ScannedStep<T>(chains: seq<seq<T>>, i: nat)
    requires i < |chains|
    ensures |ScannedDown(chains, i)| == |ScannedDown(chains, i + 1)| + |chains[i]|
  {
  }

  lemma {:induction false} ScannedLength<T>(chains: seq<seq<T>>, i: nat, c: nat)
    requires i <= c <= |chains|
    ensures |ScannedDown(chains, c)| <= |ScannedDown(chains, i)|
    decreases c - i
  {
    if i < c {
      ScannedLength(chains, i + 1, c);
    }
  }

  /** Every rank is taken by some link. */
  lemma {:induction false} EnumerateOnto<T>(chains: seq<seq<T>>, c: nat, p: nat) returns (b: nat, j: nat)
    requires c <= |chains| && p < Before(chains, c)
    ensures b < c && j < |chains[b]| && Position(chains, b, j) == p
  {
    if p < Before(chains, c - 1) {
      b, j := EnumerateOnto(chains, c - 1, p);
    } else {
      b, j := c - 1, |chains[c - 1]| - 1 - (p - Before(chains, c - 1));
    }
  }
}

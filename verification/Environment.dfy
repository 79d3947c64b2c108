/** The environment of a child process: the inherited entries, overridden and extended by added ones. */
module Environment {
  import opened KeyedMaps

  /** `strchr` for the sign between the name and the value; `|v|` when there is none. */
  function NameLength(v: string): (n: nat)
    ensures n <= |v| && (n < |v| ==> v[n] == '=')
    ensures forall i :: 0 <= i < n ==> v[i] != '='
  {
    if v == "" || v[0] == '=' then 0 else 1 + NameLength(v[1..])
  }

  function Lower(c: char): char {
    if 'A' <= c <= 'Z' then c - 'A' + 'a' else c
  }

  /** The character at `i` of a C string, which ends with a null character. */
  function CharAt(s: string, i: nat): char {
    if i < |s| then s[i] else '\0'
  }

  /** `strncasecmp` finds no difference in the characters from `i` up to `n`. */
  predicate SameFrom(s: string, t: string, i: nat, n: nat)
    requires i <= n
    decreases n - i
  {
    i == n ||
    (Lower(CharAt(s, i)) == Lower(CharAt(t, i)) && (CharAt(s, i) == '\0' || SameFrom(s, t, i + 1, n)))
  }

  /** A C string has no null character inside. */
  predicate IsCString(s: string) {
    forall i :: 0 <= i < |s| ==> s[i] != '\0'
  }

  /** One character, or a capital letter of ASCII and the small one, 32 above it. */
  ghost predicate SameLetter(c: char, d: char) {
    || c == d
    || ('A' <= c <= 'Z' && d as int == c as int + 32)
    || ('A' <= d <= 'Z' && c as int == d as int + 32)
  }

  /** Two entries name the same variable, whatever the case: what precedes the equals sign agrees letter by letter. */
  ghost predicate SameName(s: string, t: string) {
    var n := NameLength(s);
    n < |s| && n == NameLength(t) < |t| && forall i :: 0 <= i < n ==> SameLetter(s[i], t[i])
  }

  lemma LowerIsSameLetter(c: char, d: char)
    ensures Lower(c) == Lower(d) <==> SameLetter(c, d)
  {
  }

  lemma LowerKeepsMarks(c: char)
    ensures Lower(c) == '=' <==> c == '='
    ensures Lower(c) == '\0' <==> c == '\0'
  {
  }

  /** Comparing the characters up to and including the equals sign compares names. */
  lemma ComparesNames(s: string, v: string)
    requires IsCString(s) && IsCString(v) && NameLength(v) < |v|
    ensures SameFrom(s, v, 0, NameLength(v) + 1) <==> SameName(s, v)
  {
    hide SameName, NameLength, SameFrom, AgreeAt;
    var n := NameLength(v);
    SameFromIs(s, v, 0, n + 1);
    if SameFrom(s, v, 0, n + 1) {
      AgreeingNames(s, v);
    }
    if SameName(s, v) {
      SameNamesAgree(s, v);
    }
  }

  lemma AgreeingNames(s: string, v: string)
    requires NameLength(v) < |v| && forall i :: 0 <= i < NameLength(v) + 1 ==> AgreeAt(s, v, i)
    ensures SameName(s, v)
  {
    hide NameLength, Lower, SameLetter;
    var n := NameLength(v);
    assert AgreeAt(s, v, n);
    LowerKeepsMarks(s[n]);
    forall i | 0 <= i < n ensures SameLetter(s[i], v[i]) && s[i] != '=' {
      assert AgreeAt(s, v, i);
      LowerIsSameLetter(s[i], v[i]);
      LowerKeepsMarks(s[i]);
      LowerKeepsMarks(v[i]);
    }
    LowerKeepsMarks(v[n]);
    NameLengthIs(s, n);
  }

  lemma SameNamesAgree(s: string, v: string)
    requires NameLength(v) < |v| && SameName(s, v)
    ensures forall i :: 0 <= i < NameLength(v) + 1 ==> AgreeAt(s, v, i)
  {
    hide Lower, SameLetter;
    forall i | 0 <= i < NameLength(v) + 1 ensures AgreeAt(s, v, i) {
      LowerIsSameLetter(s[i], v[i]);
    }
  }

  lemma NameLengthIs(s: string, n: nat)
    requires n < |s| && s[n] == '=' && forall i :: 0 <= i < n ==> s[i] != '='
    ensures NameLength(s) == n
  {
  }

  /** The strings have the same letter at `k`. */
  predicate AgreeAt(s: string, v: string, k: nat)
    requires k < |v|
  {
    k < |s| && Lower(s[k]) == Lower(v[k])
  }

  lemma {:induction false} SameFromIs(s: string, v: string, i: nat, n: nat)
    requires IsCString(s) && IsCString(v) && i <= n <= |v|
    ensures SameFrom(s, v, i, n) <==> forall k :: i <= k < n ==> AgreeAt(s, v, k)
    decreases n - i
  {
    if i < n {
      SameFromIs(s, v, i + 1, n);
      LowerKeepsMarks(v[i]);
      LowerKeepsMarks(CharAt(s, i));
      assert SameFrom(s, v, i, n) <==> AgreeAt(s, v, i) && SameFrom(s, v, i + 1, n);
    }
  }

  /** The strings in front of the terminating null pointer. */
  function Entries(arr: seq<Option<string>>): (s: seq<string>)
    ensures |s| <= |arr|
    ensures forall i :: 0 <= i < |s| ==> arr[i] == Some(s[i])
    ensures |s| < |arr| ==> arr[|s|].None?
  {
    if arr == [] || arr[0].None? then [] else [arr[0].value] + Entries(arr[1..])
  }

  /** A vector of strings ends with a null pointer. */
  ghost predicate Terminated(arr: seq<Option<string>>) {
    && |Entries(arr)| < |arr|
    && forall i :: 0 <= i < |Entries(arr)| ==> IsCString(Entries(arr)[i])
  }

  method ArrSize(arr: array<Option<string>>) returns (size: nat)
    requires Terminated(arr[..])
    ensures size == |Entries(arr[..])|
  {
    ghost var n := |Entries(arr[..])|;
    EntriesAt(arr);
    size := 0;
    while arr[size] != None
      invariant size <= n
      decreases n - size
    {
      size := size + 1;
    }
  }

  lemma EntriesAt(arr: array<Option<string>>)
    requires Terminated(arr[..])
    ensures var n := |Entries(arr[..])|;
      n < arr.Length && arr[n] == None &&
      forall i :: 0 <= i < n ==> arr[i] == Some(Entries(arr[..])[i]) && IsCString(Entries(arr[..])[i])
  {
  }

  /** The first entry that names the same variable, or minus one. */
  ghost predicate IsFirstMatch(env: seq<string>, v: string, location: int) {
    && -1 <= location < |env|
    && (location >= 0 ==> SameName(env[location], v))
    && forall k :: 0 <= k < (if location < 0 then |env| else location) ==> !SameName(env[k], v)
  }

  method FindVariable(env: array?<Option<string>>, v: Option<string>) returns (location: int)
    requires env != null ==> Terminated(env[..])
    requires env != null && v.Some? ==> IsCString(v.value) && NameLength(v.value) < |v.value|
    ensures v.None? || env == null ==> location == -1
    ensures v.Some? && env != null ==> IsFirstMatch(Entries(env[..]), v.value, location)
  {
    if v.None? || env == null {
      return -1;
    }
    var size := NameLength(v.value) + 1;
    ghost var entries := Entries(env[..]);
    EntriesAt(env);
    location := 0;
    while env[location] != None
      invariant 0 <= location <= |entries|
      invariant forall k :: 0 <= k < location ==> !SameName(entries[k], v.value)
      decreases |entries| - location
    {
      ComparesNames(entries[location], v.value);
      if SameFrom(env[location].value, v.value, 0, size) {
        return;
      }
      location := location + 1;
    }
    location := -1;
  }

  ghost function FirstMatch(env: seq<string>, v: string): (k: int)
    ensures IsFirstMatch(env, v, k)
  {
    if env == [] then -1
    else if SameName(env[0], v) then 0
    else var k := FirstMatch(env[1..], v); if k < 0 then -1 else k + 1
  }

  lemma FirstMatchIsUnique(env: seq<string>, v: string, k: int)
    requires IsFirstMatch(env, v, k)
    ensures k == FirstMatch(env, v)
  {
  }

  /** The added entries that name no inherited variable, in order. */
  ghost function Unmatched(env: seq<string>, added: seq<string>): (s: seq<string>)
    ensures |s| <= |added|
  {
    if added == [] then []
    else
      var v := added[|added| - 1];
      Unmatched(env, added[..|added| - 1]) + if FirstMatch(env, v) < 0 then [v] else []
  }

  /** What becomes of inherited entry `k`: the last added entry whose first match it is, else the entry itself. */
  ghost function Overridden(env: seq<string>, added: seq<string>, k: nat): string
    requires k < |env|
  {
    if added == [] then env[k]
    else
      var v := added[|added| - 1];
      if FirstMatch(env, v) == k then v else Overridden(env, added[..|added| - 1], k)
  }

  ghost function Merged(env: seq<string>, added: seq<string>): (m: seq<string>)
    ensures |env| <= |m| <= |env| + |added|
  {
    seq(|env|, k requires 0 <= k < |env| => Overridden(env, added, k)) + Unmatched(env, added)
  }

  /** One added entry: it overrides the inherited entry it names, or goes to the end. */
  method MergeOne(oldEnv: array<Option<string>>, addEnv: array<Option<string>>, src: nat,
      newEnv: array<string>, end: nat)
    returns (dest: nat)
    requires Terminated(oldEnv[..]) && Terminated(addEnv[..])
    requires src < |Entries(addEnv[..])| && '=' in Entries(addEnv[..])[src]
    requires end < newEnv.Length && newEnv[..end] == Merged(Entries(oldEnv[..]), Entries(addEnv[..])[..src])
    modifies newEnv
    ensures end <= dest <= end + 1
    ensures newEnv[..dest] == Merged(Entries(oldEnv[..]), Entries(addEnv[..])[..src + 1])
  {
    hide Merged, IsFirstMatch, FirstMatch, Terminated, Entries, IsCString;
    ghost var env, added, before := Entries(oldEnv[..]), Entries(addEnv[..]), newEnv[..end];
    EntriesAt(addEnv);
    NameEnds(added[src]);
    var location := FindVariable(oldEnv, addEnv[src]);
    MergedNext(env, added, src, location);
    dest := end;
    if location >= 0 {
      newEnv[location] := addEnv[src].value;
      assert newEnv[..dest] == before[location := added[src]];
    } else {
      newEnv[dest] := addEnv[src].value;
      dest := dest + 1;
      assert newEnv[..dest] == before + [added[src]];
    }
  }

  /** Copies the inherited entries and then overrides or appends, never past the room for both vectors. */
  method Merge(oldEnv: array<Option<string>>, addEnv: array<Option<string>>) returns (newEnv: array<string>, dest: nat)
    requires Terminated(oldEnv[..]) && Terminated(addEnv[..])
    requires forall i :: 0 <= i < |Entries(addEnv[..])| ==> '=' in Entries(addEnv[..])[i]
    ensures newEnv.Length == |Entries(oldEnv[..])| + |Entries(addEnv[..])| && fresh(newEnv)
    ensures dest <= newEnv.Length && newEnv[..dest] == Merged(Entries(oldEnv[..]), Entries(addEnv[..]))
  {
    hide Merged, Terminated, Entries, IsCString;
    ghost var env, added := Entries(oldEnv[..]), Entries(addEnv[..]);
    EntriesAt(oldEnv);
    var oldSize := ArrSize(oldEnv);
    var addSize := ArrSize(addEnv);
    newEnv := new string[oldSize + addSize];
    dest := 0;
    var src := 0;
    while src < oldSize
      invariant 0 <= src == dest <= oldSize && newEnv[..dest] == env[..dest]
    {
      newEnv[dest] := oldEnv[src].value;
      dest := dest + 1;
      src := src + 1;
    }
    src := 0;
    MergedWithNone(env);
    assert env[..oldSize] == env && added[..0] == [];
    while src < addSize
      invariant 0 <= src <= addSize && oldSize <= dest <= oldSize + src
      invariant newEnv[..dest] == Merged(env, added[..src])
    {
      dest := MergeOne(oldEnv, addEnv, src, newEnv, dest);
      src := src + 1;
    }
    assert added[..addSize] == added;
  }

  lemma MergedWithNone(env: seq<string>)
    ensures Merged(env, []) == env
  {
  }

  /** One more added entry overrides its first match, or goes to the end. */
  lemma MergedNext(env: seq<string>, added: seq<string>, n: nat, k: int)
    requires n < |added| && IsFirstMatch(env, added[n], k)
    ensures k < |env|
    ensures Merged(env, added[..n + 1]) ==
      if k >= 0 then Merged(env, added[..n])[k := added[n]] else Merged(env, added[..n]) + [added[n]]
  {
    FirstMatchIsUnique(env, added[n], k);
    hide IsFirstMatch, FirstMatch;
    assert added[..n + 1][..n] == added[..n];
  }

  lemma NameEnds(v: string)
    requires '=' in v
    ensures NameLength(v) < |v|
  {
  }

  /** Added entry `i` is the last one whose first match is slot `k`. */
  ghost predicate LastOverride(env: seq<string>, added: seq<string>, i: nat, k: nat) {
    && i < |added| && FirstMatch(env, added[i]) == k
    && forall j :: i < j < |added| ==> FirstMatch(env, added[j]) != k
  }

  /** Added entry `i` is the last one that names the same variable as `q`. */
  ghost predicate LastNaming(added: seq<string>, i: nat, q: string) {
    i < |added| && SameName(added[i], q) && forall j :: i < j < |added| ==> !SameName(added[j], q)
  }

  lemma {:induction false} NotOverridden(env: seq<string>, added: seq<string>, k: nat)
    requires k < |env| && forall i :: 0 <= i < |added| ==> FirstMatch(env, added[i]) != k
    ensures Overridden(env, added, k) == env[k]
  {
    hide FirstMatch;
    if added != [] {
      NotOverridden(env, added[..|added| - 1], k);
    }
  }

  lemma {:induction false} OverriddenBy(env: seq<string>, added: seq<string>, i: nat, k: nat)
    requires k < |env| && LastOverride(env, added, i, k)
    ensures Overridden(env, added, k) == added[i]
  {
    hide FirstMatch;
    var last := |added| - 1;
    if i < last {
      assert added[..last][i] == added[i];
      OverriddenBy(env, added[..last], i, k);
    }
  }

  lemma MergedAt(env: seq<string>, added: seq<string>, k: nat)
    requires k < |env|
    ensures Merged(env, added)[k] == Overridden(env, added, k)
  {
  }

  /** Each inherited slot ends with the last added entry whose first match it is, or with its own value. */
  lemma LastOverrideStays(env: seq<string>, added: seq<string>, k: nat)
    requires k < |env|
    ensures (forall i :: 0 <= i < |added| ==> FirstMatch(env, added[i]) != k) ==> Merged(env, added)[k] == env[k]
    ensures forall i: nat :: LastOverride(env, added, i, k) ==> Merged(env, added)[k] == added[i]
  {
    hide FirstMatch, Overridden;
    MergedAt(env, added, k);
    hide Merged;
    if forall i :: 0 <= i < |added| ==> FirstMatch(env, added[i]) != k {
      NotOverridden(env, added, k);
    }
    forall i: nat | LastOverride(env, added, i, k) ensures Merged(env, added)[k] == added[i] {
      OverriddenBy(env, added, i, k);
    }
  }

  /** The appended entries are the added ones without a match, in the order they were added. */
  lemma {:induction false} UnmatchedAt(env: seq<string>, added: seq<string>, i: nat)
    requires i < |added| && FirstMatch(env, added[i]) < 0
    ensures var p := |Unmatched(env, added[..i])|;
      p < |Unmatched(env, added)| && Unmatched(env, added)[p] == added[i] &&
      Unmatched(env, added)[..p] == Unmatched(env, added[..i])
  {
    var last := |added| - 1;
    if i < last {
      UnmatchedAt(env, added[..last], i);
      assert added[..last][..i] == added[..i];
    }
  }

  /** Every appended entry is one of those. */
  lemma {:induction false} UnmatchedOnto(env: seq<string>, added: seq<string>, p: nat) returns (i: nat)
    requires p < |Unmatched(env, added)|
    ensures i < |added| && FirstMatch(env, added[i]) < 0 && p == |Unmatched(env, added[..i])|
    ensures Unmatched(env, added)[p] == added[i]
  {
    var last := |added| - 1;
    if p < |Unmatched(env, added[..last])| {
      i := UnmatchedOnto(env, added[..last], p);
      assert added[..last][..i] == added[..i];
    } else {
      i := last;
    }
  }

  lemma SameNameCarries(s: string, t: string, u: string)
    requires SameName(s, t)
    ensures SameName(t, s) && (SameName(t, u) <==> SameName(s, u))
  {
  }

  /** Entries that name the same variable have the same first match. */
  lemma SameFirstMatch(env: seq<string>, v: string, q: string)
    requires SameName(v, q)
    ensures FirstMatch(env, v) == FirstMatch(env, q)
  {
  }

  /** Which added entries have the first match of `q` as theirs. */
  lemma MatchesName(env: seq<string>, v: string, q: string)
    requires FirstMatch(env, q) >= 0
    ensures FirstMatch(env, v) == FirstMatch(env, q) <==> SameName(v, q)
  {
  }

  /**
   What the child finds first under a name: for an inherited name the last added entry for it, or else the
   inherited one.
   */
  lemma InheritedName(env: seq<string>, added: seq<string>, q: string)
    requires FirstMatch(env, q) >= 0
    ensures var k := FirstMatch(env, q);
      && FirstMatch(Merged(env, added), q) == k
      && ((forall i :: 0 <= i < |added| ==> !SameName(added[i], q)) ==> Merged(env, added)[k] == env[k])
      && forall i: nat :: LastNaming(added, i, q) ==> Merged(env, added)[k] == added[i]
  {
    hide SameName, FirstMatch, Merged;
    var k := FirstMatch(env, q);
    forall i | 0 <= i < |added| ensures FirstMatch(env, added[i]) == k <==> SameName(added[i], q) {
      MatchesName(env, added[i], q);
    }
    LastOverrideStays(env, added, k);
    assert forall i: nat :: LastNaming(added, i, q) ==> LastOverride(env, added, i, k);
    forall j | 0 <= j <= k ensures SameName(Merged(env, added)[j], q) <==> j == k {
      SlotKeepsName(env, added, j, q);
    }
    FirstMatchIsUnique(Merged(env, added), q, k);
  }

  /** Overriding keeps the name of a slot, seen from any name that has its first match not before it. */
  lemma {:induction false} SlotKeepsName(env: seq<string>, added: seq<string>, j: nat, q: string)
    requires j < |env|
    ensures SameName(Merged(env, added)[j], q) <==> SameName(env[j], q)
  {
    hide SameName, FirstMatch;
    if added != [] {
      var last := |added| - 1;
      SlotKeepsName(env, added[..last], j, q);
      if FirstMatch(env, added[last]) == j {
        SameNameCarries(env[j], added[last], q);
      }
    }
  }

  /** For a name that is not inherited the child finds the first added entry for it: later ones are shadowed. */
  lemma AddedName(env: seq<string>, added: seq<string>, q: string, i: nat)
    requires FirstMatch(env, q) < 0 && i < |added|
    requires SameName(added[i], q) && forall j :: 0 <= j < i ==> !SameName(added[j], q)
    ensures var f := FirstMatch(Merged(env, added), q); f >= |env| && Merged(env, added)[f] == added[i]
  {
    hide SameName, FirstMatch, Merged, Unmatched;
    SameFirstMatch(env, added[i], q);
    UnmatchedAt(env, added, i);
    var m, p := Merged(env, added), |env| + |Unmatched(env, added[..i])|;
    MergedSplit(env, added);
    forall k | 0 <= k < p ensures !SameName(m[k], q) {
      if k < |env| {
        SlotKeepsName(env, added, k, q);
      } else {
        var j := UnmatchedOnto(env, added[..i], k - |env|);
      }
    }
    FirstMatchIsUnique(m, q, p);
  }

  lemma MergedSplit(env: seq<string>, added: seq<string>)
    ensures Merged(env, added)[|env|..] == Unmatched(env, added)
  {
  }
}

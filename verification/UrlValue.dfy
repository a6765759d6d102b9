/** sdb_url_value: looking up `key=value` in a list separated by colons (sdb.c). */
module UrlValue {
  import opened CStrings
  import opened Common

  /** The segment assigns a value to key `k`, letter case ignored. */
  predicate HasKey(seg: string, k: string) {
    |seg| > |k| && SameIgnoringCase(seg[..|k|], k) && seg[|k|] == '='
  }

  function FirstValue(segs: seq<string>, k: string): Option<string> {
    if segs == [] then None
    else if HasKey(segs[0], k) then Some(segs[0][|k| + 1..])
    else FirstValue(segs[1..], k)
  }

  /** The value of the first segment between colons that has the key. */
  function Lookup(p: string, k: string): Option<string> {
    FirstValue(Split(p, ':'), k)
  }

  /** What follows the key, up to the next colon. */
  function ValueOf(q: string, k: string): string
    requires HasKey(q, k)
  {
    var v := q[|k| + 1..];
    v[..IndexOf(v, ':')]
  }

  /** Looking for the key at the front of the text, then behind each colon; a value ends at a colon. */
  function Scan(q: string, k: string): Option<string>
    decreases |q|
  {
    if HasKey(q, k) then Some(ValueOf(q, k))
    else if IndexOf(q, ':') == |q| then None
    else Scan(q[IndexOf(q, ':') + 1..], k)
  }

  method SdbUrlValue(p: string, k: string) returns (r: Option<string>)
    requires NulFree(p) && NulFree(k)
    ensures r == Scan(p, k)
    ensures ':' !in k ==> r == Lookup(p, k)
  {
    hide SamePrefix, SameIgnoringCase, IndexOf, Lookup;
    if ':' !in k { ScanIsLookup(p, k); }
    var rest := Some(p);
    while rest.Some?
      invariant rest.Some? ==> NulFree(rest.value) && Scan(p, k) == Scan(rest.value, k)
      invariant rest.None? ==> Scan(p, k) == None
      decreases if rest.Some? then |rest.value| + 1 else 0
    {
      var q := rest.value;
      var c := StrNCaseCmp(q, k, |k|);
      KeyAtFront(q, k);
      if c == 0 && At(q, |k|) == '=' {
        var b := "";
        var i := 0;
        var v := q[|k| + 1..];
        while At(v, i) != '\0' && At(v, i) != ':'
          invariant i <= |v| && b == v[..i] && ':' !in b
          decreases |v| - i
        {
          b := b + [v[i]];
          i := i + 1;
        }
        ValueEnds(v, i);
        return Some(b);
      }
      var colon := IndexOf(q, ':');
      rest := if colon == |q| then None else Some(q[colon + 1..]);
    }
    return None;
  }

  lemma KeyAtFront(q: string, k: string)
    requires NulFree(q)
    ensures SamePrefix(q, k, |k|) ==> |k| <= |q|
    ensures SamePrefix(q, k, |k|) && At(q, |k|) == '=' <==> HasKey(q, k)
  {
    PrefixReaches(q, k);
  }

  lemma ValueEnds(v: string, i: nat)
    requires i <= |v| && ':' !in v[..i] && (i < |v| ==> v[i] == ':')
    ensures IndexOf(v, ':') == i
  {
    hide IndexOf;
    forall j | 0 <= j < i ensures v[j] != ':' { assert v[j] == v[..i][j]; }
    IndexOfIs(v, ':', i);
  }

  // ---- What the scan finds ----

  /** The key is assigned at position `i`, which is the front of the text or right behind a colon. */
  predicate KeyAt(p: string, k: string, i: nat) {
    i <= |p| && (i == 0 || p[i - 1] == ':') && HasKey(p[i..], k)
  }

  /** `v` is all that follows the key and its "=" up to the next colon or the end. */
  predicate IsValue(q: string, k: string, v: string)
    requires |q| > |k|
  {
    ':' !in v && v <= q[|k| + 1..] && (|v| + |k| + 1 == |q| || q[|k| + 1..][|v|] == ':')
  }

  /** The first assignment of the key is at position `i`, and `v` is the value there. */
  predicate FoundAt(p: string, k: string, i: nat, v: string) {
    KeyAt(p, k, i) && IsValue(p[i..], k, v) && forall j: nat | j < i :: !KeyAt(p, k, j)
  }

  lemma ValueOfIsValue(q: string, k: string)
    requires HasKey(q, k)
    ensures IsValue(q, k, ValueOf(q, k))
  {
    IndexOfFirst(q[|k| + 1..], ':');
  }

  /** The segments behind the first colon are those of the rest. */
  lemma KeyBehind(p: string, k: string, i: nat)
    requires !HasKey(p, k)
    ensures i <= IndexOf(p, ':') ==> !KeyAt(p, k, i)
    ensures IndexOf(p, ':') < i <= |p| ==>
      p[i..] == p[IndexOf(p, ':') + 1..][i - IndexOf(p, ':') - 1..]
      && (KeyAt(p, k, i) <==> KeyAt(p[IndexOf(p, ':') + 1..], k, i - IndexOf(p, ':') - 1))
  {
    hide HasKey, IndexOf;
    var n := IndexOf(p, ':');
    IndexOfFirst(p, ':');
    assert p[0..] == p;
    if n < i <= |p| {
      var q := p[n + 1..];
      assert q[i - n - 1..] == p[i..];
      assert i > n + 1 ==> q[i - n - 2] == p[i - 1];
    }
  }

  /** For any key, colons in it included: nothing is found exactly when the key is nowhere, else the first value. */
  lemma {:induction false} ScanFindsFirst(p: string, k: string)
    ensures Scan(p, k).None? <==> forall i: nat :: !KeyAt(p, k, i)
    ensures Scan(p, k).Some? ==> exists i: nat :: FoundAt(p, k, i, Scan(p, k).value)
    decreases |p|
  {
    hide HasKey, IndexOf, ValueOf, KeyAt, IsValue;
    var n := IndexOf(p, ':');
    if HasKey(p, k) {
      assert p[0..] == p;
      assert KeyAt(p, k, 0) by { FrontKey(p, k); }
      ValueOfIsValue(p, k);
      assert FoundAt(p, k, 0, Scan(p, k).value);
    } else {
      forall i: nat ensures i > |p| ==> !KeyAt(p, k, i) { KeyInside(p, k, i); }
      forall i: nat ensures i <= n ==> !KeyAt(p, k, i) { KeyBehind(p, k, i); }
      if n < |p| { ScanFindsBehind(p, k); }
    }
  }

  lemma ScanFindsBehind(p: string, k: string)
    requires !HasKey(p, k) && IndexOf(p, ':') < |p|
    ensures Scan(p, k).None? <==> forall i: nat :: !KeyAt(p, k, i)
    ensures Scan(p, k).Some? ==> exists i: nat :: FoundAt(p, k, i, Scan(p, k).value)
    decreases |p|, 0
  {
    hide HasKey, IndexOf, ValueOf, KeyAt, IsValue;
    var n := IndexOf(p, ':');
    var q := p[n + 1..];
    ScanFindsFirst(q, k);
    if Scan(q, k).Some? {
      var i: nat :| FoundAt(q, k, i, Scan(q, k).value);
      KeyInside(q, k, i);
      KeyBehind(p, k, n + 1 + i);
      forall j: nat | j < n + 1 + i ensures !KeyAt(p, k, j) { KeyBehind(p, k, j); }
      assert FoundAt(p, k, n + 1 + i, Scan(p, k).value);
    } else {
      forall i: nat ensures !KeyAt(p, k, i) {
        KeyBehind(p, k, i);
        KeyInside(p, k, i);
      }
    }
  }

  lemma FrontKey(p: string, k: string)
    requires HasKey(p, k)
    ensures KeyAt(p, k, 0)
  {
    assert p[0..] == p;
  }

  lemma KeyInside(p: string, k: string, i: nat)
    ensures KeyAt(p, k, i) ==> i <= |p| && HasKey(p[i..], k)
  {
  }

  /** For a key without colons the scan looks at the segments between colons one by one. */
  lemma {:induction false} ScanIsLookup(p: string, k: string)
    requires ':' !in k
    ensures Scan(p, k) == Lookup(p, k)
    decreases |p|
  {
    hide HasKey, Split, FirstValue;
    var n := IndexOf(p, ':');
    ColonStep(p, k);
    if HasKey(p, k) {
      KeyIsInSegment(p, k);
      SegmentValue(p, k);
    } else {
      if HasKey(p[..n], k) { SegmentKeyIsPrefix(p, k); }
      if n < |p| { ScanIsLookup(p[n + 1..], k); }
    }
  }

  /** The value up to the next colon is what the segment has behind its key. */
  lemma SegmentValue(q: string, k: string)
    requires HasKey(q[..IndexOf(q, ':')], k)
    ensures |k| < IndexOf(q, ':') && HasKey(q, k)
    ensures q[..IndexOf(q, ':')][|k| + 1..] == ValueOf(q, k)
  {
    hide IndexOf;
    SegmentKeyIsPrefix(q, k);
    var n, v := IndexOf(q, ':'), q[|k| + 1..];
    IndexOfFirst(q, ':');
    assert forall j | 0 <= j < n - |k| - 1 :: v[j] == q[|k| + 1 + j];
    assert n < |q| ==> v[n - |k| - 1] == q[n];
    IndexOfIs(v, ':', n - |k| - 1);
  }

  lemma PrefixReaches(q: string, k: string)
    ensures SamePrefix(q, k, |k|) ==> |k| <= |q| && SameIgnoringCase(q[..|k|], k)
  {
    SameLength(if |q| <= |k| then q else q[..|k|], k);
    assert |q| == |k| ==> q[..|k|] == q;
  }

  lemma KeyIsInSegment(q: string, k: string)
    requires ':' !in k && HasKey(q, k)
    ensures HasKey(q[..IndexOf(q, ':')], k)
  {
    hide IndexOf;
    var n := IndexOf(q, ':');
    IndexOfFirst(q, ':');
    forall i | 0 <= i < |k| ensures q[i] != ':' {
      assert SameLetter(q[..|k|][i], k[i]) && k[i] in k;
    }
    assert |k| < n;
    TakeOfTake(q, n, |k|);
  }

  lemma SegmentKeyIsPrefix(q: string, k: string)
    requires HasKey(q[..IndexOf(q, ':')], k)
    ensures HasKey(q, k)
  {
    TakeOfTake(q, IndexOf(q, ':'), |k|);
  }

  /** Going on behind the first colon is dropping the first segment. */
  lemma ColonStep(q: string, k: string)
    ensures var n := IndexOf(q, ':');
      FirstValue(Split(q, ':'), k) ==
        if HasKey(q[..n], k) then Some(q[..n][|k| + 1..])
        else if n == |q| then None else FirstValue(Split(q[n + 1..], ':'), k)
  {
    hide HasKey, Split;
    var n := IndexOf(q, ':');
    IndexOfFirst(q, ':');
    assert forall i | 0 <= i < n :: q[..n][i] == q[i] != ':';
    if n == |q| {
      assert q[..n] == q;
      SplitNothing(q, ':');
      assert Split(q, ':')[1..] == [];
    } else {
      assert q == q[..n] + [':'] + q[n + 1..];
      SplitPiece(q[..n], ':', q[n + 1..]);
      assert Split(q, ':')[1..] == Split(q[n + 1..], ':');
    }
  }

  // ---- Printed parameter lists ----

  function Assignment(key: string, value: string): string {
    key + "=" + value
  }

  function Assignments(keys: seq<string>, values: seq<string>): seq<string>
    requires |keys| == |values|
  {
    Map2(Assignment, keys, values)
  }

  lemma HasKeyOfAssignment(key: string, value: string, k: string)
    requires '=' !in key && '=' !in k
    ensures HasKey(Assignment(key, value), k) <==> SameIgnoringCase(key, k)
    ensures Assignment(key, value)[|key| + 1..] == value
  {
    var seg := Assignment(key, value);
    assert seg[..|key|] == key && seg[|key|] == '=';
    if |k| < |key| { assert seg[|k|] == key[|k|]; }
    if |k| > |key| && |seg| > |k| {
      assert seg[..|k|][|key|] == '=' && k[|key|] != '=';
      assert !SameLetter('=', k[|key|]);
    }
    if |k| == |key| { assert seg[..|k|] == key; }
  }

  lemma {:induction false} FirstValueOfAssignments(keys: seq<string>, values: seq<string>, i: nat)
    requires |keys| == |values| && i < |keys|
    requires forall k | k in keys :: '=' !in k
    requires forall j | 0 <= j < i :: !SameIgnoringCase(keys[j], keys[i])
    ensures FirstValue(Assignments(keys, values), keys[i]) == Some(values[i])
    decreases i
  {
    hide HasKey, Assignment;
    HasKeyOfAssignment(keys[0], values[0], keys[i]);
    var segs := Assignments(keys, values);
    if i > 0 {
      assert segs[1..] == Assignments(keys[1..], values[1..]);
      FirstValueOfAssignments(keys[1..], values[1..], i - 1);
    } else {
      SameLength(keys[0], keys[i]);
    }
  }

  lemma SameLength(p: string, q: string)
    ensures SameIgnoringCase(p, q) ==> |p| == |q|
  {
  }

  /** Every value of a printed parameter list is found under its key, whatever case the key is asked for in. */
  lemma PrintedListLookup(keys: seq<string>, values: seq<string>, i: nat, k: string)
    requires |keys| == |values| && i < |keys| && SameIgnoringCase(k, keys[i]) && '=' !in k
    requires forall x | x in keys :: '=' !in x && ':' !in x
    requires forall x | x in values :: ':' !in x
    requires forall j, m | 0 <= j < m < |keys| :: !SameIgnoringCase(keys[j], keys[m])
    ensures Lookup(Join(Assignments(keys, values), ':'), k) == Some(values[i])
  {
    hide Assignment, HasKey, Split, FirstValue, Join;
    var segs := Assignments(keys, values);
    forall p | p in segs ensures ':' !in p {
      var j :| 0 <= j < |segs| && segs[j] == p;
      AssignmentKeepsOut(keys[j], values[j]);
    }
    SplitJoin(segs, ':');
    FirstValueOfAssignments(keys, values, i);
    SameKeySameValue(segs, k, keys[i]);
  }

  lemma AssignmentKeepsOut(key: string, value: string)
    requires ':' !in key && ':' !in value
    ensures ':' !in Assignment(key, value)
  {
  }

  lemma {:induction false} SameKeySameValue(segs: seq<string>, k: string, k': string)
    requires SameIgnoringCase(k, k')
    ensures FirstValue(segs, k) == FirstValue(segs, k')
  {
    hide SameIgnoringCase;
    SameLength(k, k');
    if segs != [] {
      if |segs[0]| > |k| { SameIgnoringCaseLike(k, k', segs[0][..|k|]); }
      SameKeySameValue(segs[1..], k, k');
    }
  }

  /** A key is not found exactly when no segment has it. */
  lemma {:induction false} LookupNone(segs: seq<string>, k: string)
    ensures FirstValue(segs, k).None? <==> forall s | s in segs :: !HasKey(s, k)
  {
    hide HasKey;
    if segs != [] { LookupNone(segs[1..], k); }
  }
}

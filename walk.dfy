/** What one `FindMatches` call does to the searcher's two accumulators,
    stated as functions of the registry tree, and what follows from it. */
module Walk {
  import opened Registry
  import opened Matching

  /** What a piece of the walk adds: records appended to the match list, and
      increments of the failed-key counter. */
  datatype Effect = Effect(found: seq<WorkResult>, failed: nat)

  const Nothing := Effect([], 0)
  const OneFailure := Effect([], 1)

  /** `a` followed by `b`. */
  function Then(a: Effect, b: Effect): Effect {
    Effect(a.found + b.found, a.failed + b.failed)
  }

  /** A `FindMatches` call either lets the exception of `GetSubKeyNames`
      escape (before doing anything) or completes with some effect. */
  datatype Walked = Escaped | Completed(effect: Effect)

  /** `FindMatches(k)`. */
  function Find(k: Key, target: string): Walked
    decreases k, 1
  {
    if k.subKeyNames.ListThrows? then Escaped
    else Completed(WalkFrom(k, 0, target))
  }

  /** The sibling loop of `FindMatches(k)` from sub-key `i` on. A sub-key that
      opens to null ends the call: neither it nor any later sibling adds anything. */
  function WalkFrom(k: Key, i: nat, target: string): Effect
    requires k.subKeyNames.Listed? && i <= |k.subKeyNames.openings|
    decreases k, 0, |k.subKeyNames.openings| - i
  {
    var names := k.subKeyNames.openings;
    if i == |names| || names[i].NullKey? then Nothing
    else Then(Visit(names[i], target), WalkFrom(k, i + 1, target))
  }

  /** One pass of the `try` block for a sub-key that does not open to null.
      Any exception (opening it, `GetValueNames`, `SubKeyCount`, a `GetValue`
      of the scan, the `GetSubKeyNames` of the nested call) adds one failure;
      what the scan recorded before its exception stays. */
  function Visit(o: Opening, target: string): Effect
    requires !o.NullKey?
    decreases o, 2
  {
    match o
    case OpenThrows => OneFailure
    case Opened(c) =>
      if c.valueNames.Throws? || c.subKeyCount.Throws? then OneFailure
      else if c.subKeyCount.value == 0 then
        var s := ScanFrom(c.name, c.valueNames.value, 0, target);
        Effect(s.found, if s.threw then 1 else 0)
      else
        match Find(c, target)
        case Escaped => OneFailure
        case Completed(e) => e
  }

  /** Key `c` is value-scanned (it has no sub-keys and its value names read)
      and one of its values yields record `r`. */
  ghost predicate Emits(c: Key, r: WorkResult, target: string) {
    && c.subKeyCount == Ok(0)
    && c.valueNames.Ok?
    && r.registryKey == c.name
    && IsMatch(target, r.valueName, r.value)
    && exists v :: v in c.valueNames.value && v == Value(r.valueName, Ok(r.value))
  }

  // ---------------------------------------------------------------------
  // Soundness: every record comes from a matching value of a key below the
  // start key that has no sub-keys.

  lemma {:induction false} VisitSound(o: Opening, target: string, r: WorkResult)
    requires !o.NullKey? && r in Visit(o, target).found
    ensures o.Opened?
    ensures Emits(o.key, r, target) || exists d :: Below(o.key, d) && Emits(d, r, target)
    decreases o, 2
  {
    var c := o.key;
    if c.valueNames.Throws? || c.subKeyCount.Throws? {
    } else if c.subKeyCount.value == 0 {
      var vs := c.valueNames.value;
      var j :| 0 <= j < |vs| && vs[j] == Value(r.valueName, Ok(r.value));
      assert vs[j] in vs;
    } else {
      FindSound(c, target, r);
    }
  }

  lemma {:induction false} FindSound(k: Key, target: string, r: WorkResult)
    requires Find(k, target).Completed? && r in Find(k, target).effect.found
    ensures exists d :: Below(k, d) && Emits(d, r, target)
    decreases k, 1
  {
    WalkFromSound(k, 0, target, r);
  }

  lemma {:induction false} WalkFromSound(k: Key, i: nat, target: string, r: WorkResult)
    requires k.subKeyNames.Listed? && i <= |k.subKeyNames.openings|
    requires r in WalkFrom(k, i, target).found
    ensures exists d :: Below(k, d) && Emits(d, r, target)
    decreases k, 0, |k.subKeyNames.openings| - i
  {
    var names := k.subKeyNames.openings;
    if r in Visit(names[i], target).found {
      VisitSound(names[i], target, r);
      var c := names[i].key;
      assert names[i] in names;
      if !Emits(c, r, target) {
        var d :| Below(c, d) && Emits(d, r, target);
        assert Below(k, d);
      } else {
        assert Below(k, c);
      }
    } else {
      WalkFromSound(k, i + 1, target, r);
    }
  }

  // ---------------------------------------------------------------------
  // Completeness: on a tree where nothing fails, the walk records exactly
  // the matching values of the keys below the start key that have no sub-keys.

  lemma {:induction false} VisitComplete(o: Opening, target: string)
    requires o.Opened? && Healthy(o.key)
    ensures Visit(o, target).failed == 0
    ensures forall d, r :: (d == o.key || Below(o.key, d)) && Emits(d, r, target) ==>
      r in Visit(o, target).found
    decreases o, 2
  {
    var c := o.key;
    if c.subKeyCount.value == 0 {
      var vs := c.valueNames.value;
      forall j | 0 <= j < |vs| ensures vs[j].data.Ok? {
        assert vs[j] in vs;
      }
      ScanComplete(c.name, vs, 0, target);
      forall d, r | (d == c || Below(c, d)) && Emits(d, r, target)
        ensures r in Visit(o, target).found
      {
        var v :| v in vs && v == Value(r.valueName, Ok(r.value));
        var j :| 0 <= j < |vs| && vs[j] == v;
      }
    } else {
      WalkFromComplete(c, 0, target);
    }
  }

  lemma {:induction false} WalkFromComplete(k: Key, i: nat, target: string)
    requires SubtreesHealthy(k) && i <= |k.subKeyNames.openings|
    ensures WalkFrom(k, i, target).failed == 0
    ensures forall o, d, r ::
      o in k.subKeyNames.openings[i..] && o.Opened? && (d == o.key || Below(o.key, d)) && Emits(d, r, target)
      ==> r in WalkFrom(k, i, target).found
    decreases k, 0, |k.subKeyNames.openings| - i
  {
    var names := k.subKeyNames.openings;
    if i < |names| {
      assert names[i] in names;
      VisitComplete(names[i], target);
      WalkFromComplete(k, i + 1, target);
      assert names[i..] == [names[i]] + names[i + 1..];
    }
  }

  /** When the start key's sub-keys list and nothing below it fails,
      `FindMatches` counts no failure, and a record is appended exactly when
      some key below the start key with no sub-keys holds a matching value it
      describes. */
  lemma FindExact(k: Key, target: string)
    requires SubtreesHealthy(k)
    ensures Find(k, target).Completed? && Find(k, target).effect.failed == 0
    ensures forall r :: r in Find(k, target).effect.found ==> exists d :: Below(k, d) && Emits(d, r, target)
    ensures forall d, r :: Below(k, d) && Emits(d, r, target) ==> r in Find(k, target).effect.found
  {
    WalkFromComplete(k, 0, target);
    assert k.subKeyNames.openings[0..] == k.subKeyNames.openings;
    forall r | r in Find(k, target).effect.found
      ensures exists d :: Below(k, d) && Emits(d, r, target)
    {
      FindSound(k, target, r);
    }
  }

  // ---------------------------------------------------------------------
  // Failure isolation and the early return on a null sub-key.

  /** `k` with what `OpenSubKey` yields for its sub-key `i` replaced by `o`. */
  function WithChild(k: Key, i: nat, o: Opening): (k': Key)
    requires k.subKeyNames.Listed? && i < |k.subKeyNames.openings|
    ensures k'.subKeyNames.Listed? && |k'.subKeyNames.openings| == |k.subKeyNames.openings|
    ensures k'.subKeyNames.openings[i] == o
    ensures forall j :: 0 <= j < |k.subKeyNames.openings| && j != i ==>
      k'.subKeyNames.openings[j] == k.subKeyNames.openings[j]
  {
    k.(subKeyNames := Listed(k.subKeyNames.openings[i := o]))
  }

  /** The sibling loop from `i` on depends only on the sub-keys from `i` on. */
  lemma {:induction false} SameSuffixSameWalk(k: Key, k': Key, i: nat, target: string)
    requires k.subKeyNames.Listed? && k'.subKeyNames.Listed?
    requires |k.subKeyNames.openings| == |k'.subKeyNames.openings| && i <= |k.subKeyNames.openings|
    requires forall j :: i <= j < |k.subKeyNames.openings| ==> k.subKeyNames.openings[j] == k'.subKeyNames.openings[j]
    ensures WalkFrom(k, i, target) == WalkFrom(k', i, target)
    decreases |k.subKeyNames.openings| - i
  {
    if i < |k.subKeyNames.openings| {
      SameSuffixSameWalk(k, k', i + 1, target);
    }
  }

  /** What the siblings `l` up to (not including) `i` add, none of them null. */
  function WalkSpan(k: Key, l: nat, i: nat, target: string): Effect
    requires k.subKeyNames.Listed? && l <= i <= |k.subKeyNames.openings|
    requires forall j :: l <= j < i ==> !k.subKeyNames.openings[j].NullKey?
    decreases i - l
  {
    if l == i then Nothing
    else Then(Visit(k.subKeyNames.openings[l], target), WalkSpan(k, l + 1, i, target))
  }

  /** The sibling loop from `l` is the siblings before `i`, then sub-key
      `i`, then the siblings after it, when none from `l` to `i` is null. */
  lemma {:induction false} WalkSplits(k: Key, i: nat, l: nat, target: string)
    requires k.subKeyNames.Listed? && l <= i < |k.subKeyNames.openings|
    requires forall j :: l <= j <= i ==> !k.subKeyNames.openings[j].NullKey?
    ensures WalkFrom(k, l, target) ==
      Then(WalkSpan(k, l, i, target), Then(Visit(k.subKeyNames.openings[i], target), WalkFrom(k, i + 1, target)))
    decreases i - l
  {
    if l < i {
      WalkSplits(k, i, l + 1, target);
    }
  }

  /** Two keys whose sub-keys agree from `l` up to `i` add the same over that span. */
  lemma {:induction false} SameSpan(k: Key, k': Key, l: nat, i: nat, target: string)
    requires k.subKeyNames.Listed? && k'.subKeyNames.Listed?
    requires l <= i <= |k.subKeyNames.openings| && i <= |k'.subKeyNames.openings|
    requires forall j :: l <= j < i ==> !k.subKeyNames.openings[j].NullKey?
    requires forall j :: l <= j < i ==> k'.subKeyNames.openings[j] == k.subKeyNames.openings[j]
    ensures WalkSpan(k, l, i, target) == WalkSpan(k', l, i, target)
    decreases i - l
  {
    if l < i {
      SameSpan(k, k', l + 1, i, target);
    }
  }

  /** The sibling loop splits around sub-key `i` (reached after the siblings
      from `l` on, none of which opens to null): whatever non-null outcome
      `o` takes its place, only its own pass changes, and the siblings before
      and after it add the same. With `o == OpenThrows` that pass is exactly
      one failure and no record. */
  lemma FailureIsolated(k: Key, i: nat, l: nat, o: Opening, target: string)
    requires k.subKeyNames.Listed? && l <= i < |k.subKeyNames.openings|
    requires forall j :: l <= j <= i ==> !k.subKeyNames.openings[j].NullKey?
    requires !o.NullKey?
    ensures WalkFrom(k, l, target) ==
      Then(WalkSpan(k, l, i, target), Then(Visit(k.subKeyNames.openings[i], target), WalkFrom(k, i + 1, target)))
    ensures WalkFrom(WithChild(k, i, o), l, target) ==
      Then(WalkSpan(k, l, i, target), Then(Visit(o, target), WalkFrom(k, i + 1, target)))
    ensures o == OpenThrows ==> Visit(o, target) == OneFailure
  {
    var k' := WithChild(k, i, o);
    WalkSplits(k, i, l, target);
    WalkSplits(k', i, l, target);
    SameSpan(k, k', l, i, target);
    SameSuffixSameWalk(k, k', i + 1, target);
  }

  /** A sub-key at `i` that opens to null ends the loop: it adds nothing, and
      two keys whose sub-keys agree from `l` up to it walk alike, whatever
      follows it. */
  lemma {:induction false} NullHidesLaterSiblings(k: Key, k': Key, i: nat, l: nat, target: string)
    requires k.subKeyNames.Listed? && k'.subKeyNames.Listed?
    requires l <= i < |k.subKeyNames.openings| && i < |k'.subKeyNames.openings|
    requires k.subKeyNames.openings[i] == NullKey
    requires forall j :: l <= j <= i ==> k.subKeyNames.openings[j] == k'.subKeyNames.openings[j]
    ensures WalkFrom(k, i, target) == Nothing
    ensures WalkFrom(k, l, target) == WalkFrom(k', l, target)
    decreases i - l
  {
    if l < i {
      NullHidesLaterSiblings(k, k', i, l + 1, target);
    }
  }
}

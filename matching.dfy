/** The match test and the value scan of one leaf key (`GetValue`). */
module Matching {
  import opened Text
  import opened Registry

  /** One hit: the key's full path, the value name as written, and the payload
      as written (not lower-cased), None where the payload is not a string. */
  datatype WorkResult = WorkResult(registryKey: string, valueName: string, value: Option<string>)

  /** A value is a hit when its lower-cased name, or its lower-cased string
      payload, contains the target. */
  predicate IsMatch(target: string, valueName: string, value: Option<string>) {
    Contains(ToLower(valueName), target) || (value.Some? && Contains(ToLower(value.value), target))
  }

  /** Hits of one scan, and whether a `GetValue` call threw and ended it. */
  datatype Scan = Scan(found: seq<WorkResult>, threw: bool)

  /** The records the value loop appends for `vs[i..]` of the key at `path`:
      each comes from a readable value of that key that matches, and carries
      the key path, that value's name and its payload unchanged. */
  function ScanFrom(path: string, vs: seq<Value>, i: nat, target: string): (s: Scan)
    requires i <= |vs|
    ensures forall r :: r in s.found ==>
      && r.registryKey == path
      && IsMatch(target, r.valueName, r.value)
      && exists j :: i <= j < |vs| && vs[j] == Value(r.valueName, Ok(r.value))
    decreases |vs| - i
  {
    if i == |vs| then Scan([], false)
    else match vs[i].data
      case Throws => Scan([], true)
      case Ok(p) =>
        var rest := ScanFrom(path, vs, i + 1, target);
        var hit := if IsMatch(target, vs[i].name, p) then [WorkResult(path, vs[i].name, p)] else [];
        Scan(hit + rest.found, rest.threw)
  }

  /** When every value of `vs[i..]` reads, the scan does not throw and records
      every matching value. */
  lemma {:induction false} ScanComplete(path: string, vs: seq<Value>, i: nat, target: string)
    requires i <= |vs|
    requires forall j :: i <= j < |vs| ==> vs[j].data.Ok?
    ensures !ScanFrom(path, vs, i, target).threw
    ensures forall j :: i <= j < |vs| && IsMatch(target, vs[j].name, vs[j].data.value) ==>
      WorkResult(path, vs[j].name, vs[j].data.value) in ScanFrom(path, vs, i, target).found
    decreases |vs| - i
  {
    if i < |vs| {
      ScanComplete(path, vs, i + 1, target);
    }
  }

  /** A `GetValue` call that throws ends the scan: the hits recorded for the
      values before it stay, and no later value is looked at. */
  lemma {:induction false} ScanStopsAtThrow(path: string, vs: seq<Value>, i: nat, j: nat, target: string)
    requires i <= j < |vs| && vs[j].data.Throws?
    requires forall l :: i <= l < j ==> vs[l].data.Ok?
    ensures ScanFrom(path, vs, i, target).threw
    ensures ScanFrom(path, vs, i, target).found == ScanFrom(path, vs[..j], i, target).found
    decreases j - i
  {
    if i < j {
      ScanStopsAtThrow(path, vs, i + 1, j, target);
      assert vs[..j][i] == vs[i];
    }
  }

  /** A target holding an upper-case letter matches nothing, since both sides
      it is compared with are lower-cased: why the target is lower-cased first. */
  lemma UpperTargetNeverMatches(target: string, valueName: string, value: Option<string>, j: int)
    requires 0 <= j < |target| && IsUpper(target[j])
    ensures !IsMatch(target, valueName, value)
  {
    UpperNeverInLowered(valueName, target, j);
    if value.Some? {
      UpperNeverInLowered(value.value, target, j);
    }
  }
}

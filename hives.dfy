/** The hive walks of one search, taken one after another. */
module Hives {
  import opened Registry
  import opened Matching
  import opened Walk

  /** What the hive walks add together, and whether any of them let an
      exception escape (which `Task.WhenAll` then rethrows). */
  datatype Run = Run(effect: Effect, escaped: bool)

  function Combine(a: Run, b: Run): Run {
    Run(Then(a.effect, b.effect), a.escaped || b.escaped)
  }

  /** One searching task: `FindMatches` on the base key of a hive. */
  function HiveRun(root: Key, target: string): Run {
    match Find(root, target)
    case Escaped => Run(Nothing, true)
    case Completed(e) => Run(e, false)
  }

  /** The hive tasks run to completion in the order given. */
  function RunHives(hives: seq<Key>, target: string): Run
    decreases |hives|
  {
    if hives == [] then Run(Nothing, false)
    else Combine(RunHives(hives[..|hives| - 1], target), HiveRun(hives[|hives| - 1], target))
  }

  /** Running one more hive adds that hive's records after the others',
      adds its failures, and escapes if it or an earlier one escaped. */
  lemma RunHivesStep(hives: seq<Key>, i: nat, target: string)
    requires i < |hives|
    ensures var before, after, hive := RunHives(hives[..i], target), RunHives(hives[..i + 1], target), HiveRun(hives[i], target);
      && after.effect.found == before.effect.found + hive.effect.found
      && after.effect.failed == before.effect.failed + hive.effect.failed
      && after.escaped == (before.escaped || hive.escaped)
  {
    assert hives[..i + 1][..i] == hives[..i];
  }

  /** Walking two lists of hives one after the other is walking their concatenation. */
  lemma {:induction false} RunHivesAppend(a: seq<Key>, b: seq<Key>, target: string)
    ensures RunHives(a + b, target) == Combine(RunHives(a, target), RunHives(b, target))
    decreases |b|
  {
    if b == [] {
      assert a + b == a;
    } else {
      var b' := b[..|b| - 1];
      assert (a + b)[..|a + b| - 1] == a + b';
      RunHivesAppend(a, b', target);
      var last := HiveRun(b[|b| - 1], target);
      assert RunHives(b, target) == Combine(RunHives(b', target), last);
      assert RunHives(a + b, target) == Combine(RunHives(a + b', target), last);
    }
  }

  /** Walking `b` is walking `b` without its hive `j`, and that hive, in some order. */
  lemma RunHivesWithout(b: seq<Key>, j: nat, target: string)
    requires j < |b|
    ensures var rest := RunHives(b[..j] + b[j + 1..], target);
      && multiset(RunHives(b, target).effect.found) == multiset(rest.effect.found) + multiset(HiveRun(b[j], target).effect.found)
      && RunHives(b, target).effect.failed == rest.effect.failed + HiveRun(b[j], target).effect.failed
      && RunHives(b, target).escaped == (rest.escaped || HiveRun(b[j], target).escaped)
  {
    assert b == b[..j] + [b[j]] + b[j + 1..];
    RunHivesAppend(b[..j] + [b[j]], b[j + 1..], target);
    RunHivesAppend(b[..j], [b[j]], target);
    RunHivesAppend(b[..j], b[j + 1..], target);
    assert [b[j]][..0] == [];
  }

  /** Removing one occurrence of the same hive from two lists with the same
      hives leaves two lists with the same hives. */
  lemma RemoveSameHive(a: seq<Key>, b: seq<Key>, j: nat)
    requires multiset(a) == multiset(b) && a != [] && j < |b| && b[j] == a[|a| - 1]
    ensures multiset(a[..|a| - 1]) == multiset(b[..j] + b[j + 1..])
  {
    var x, a', b' := b[j], a[..|a| - 1], b[..j] + b[j + 1..];
    assert a == a' + [x];
    assert b == b[..j] + [x] + b[j + 1..];
    forall e ensures multiset(a')[e] == multiset(b')[e] {
      assert multiset(a)[e] == multiset(b)[e];
    }
  }

  /** The order in which the hives are walked changes the order of the
      records only: the same records, as often, the same failure count, and
      the same verdict on escaped exceptions. */
  lemma {:induction false} HiveOrderIrrelevant(a: seq<Key>, b: seq<Key>, target: string)
    requires multiset(a) == multiset(b)
    ensures multiset(RunHives(a, target).effect.found) == multiset(RunHives(b, target).effect.found)
    ensures RunHives(a, target).effect.failed == RunHives(b, target).effect.failed
    ensures RunHives(a, target).escaped == RunHives(b, target).escaped
    decreases |a|
  {
    if a == [] {
      assert |b| == |multiset(b)| == 0;
    } else {
      var x := a[|a| - 1];
      assert x in multiset(b);
      var j :| 0 <= j < |b| && b[j] == x;
      RemoveSameHive(a, b, j);
      HiveOrderIrrelevant(a[..|a| - 1], b[..j] + b[j + 1..], target);
      RunHivesWithout(b, j, target);
    }
  }
}

/** The blacklist filter applied to the match list once every hive is walked. */
module Filtering {
  import opened Text
  import opened Matching

  /** `_blackList.Any(path.ToLower().Contains)`: some entry occurs in the
      lower-cased key path. Entries are compared as given. */
  predicate Blacklisted(path: string, blackList: seq<string>) {
    exists j :: 0 <= j < |blackList| && Contains(ToLower(path), blackList[j])
  }

  /** The records whose key path is not blacklisted, in their order: each
      kept record is one of the input's and none of them is blacklisted. */
  function Filtered(ms: seq<WorkResult>, blackList: seq<string>): (r: seq<WorkResult>)
    ensures forall m :: m in r ==> m in ms && !Blacklisted(m.registryKey, blackList)
    decreases |ms|
  {
    if ms == [] then []
    else (if Blacklisted(ms[0].registryKey, blackList) then [] else [ms[0]]) + Filtered(ms[1..], blackList)
  }

  /** Each record keeps all its occurrences unless its path is blacklisted,
      in which case it keeps none. */
  lemma {:induction false} FilterCounts(ms: seq<WorkResult>, blackList: seq<string>, m: WorkResult)
    ensures multiset(Filtered(ms, blackList))[m] ==
      if Blacklisted(m.registryKey, blackList) then 0 else multiset(ms)[m]
    decreases |ms|
  {
    if ms != [] {
      FilterCounts(ms[1..], blackList, m);
      assert ms == [ms[0]] + ms[1..];
    }
  }

  /** `a` is `b` with some elements left out, the rest in their order. */
  ghost predicate SubsequenceOf(a: seq<WorkResult>, b: seq<WorkResult>)
    decreases |b|
  {
    if a == [] then true
    else if b == [] then false
    else (a[0] == b[0] && SubsequenceOf(a[1..], b[1..])) || SubsequenceOf(a, b[1..])
  }

  /** The records the filter keeps stay in their relative order. */
  lemma {:induction false} FilterKeepsOrder(ms: seq<WorkResult>, blackList: seq<string>)
    ensures SubsequenceOf(Filtered(ms, blackList), ms)
    decreases |ms|
  {
    if ms != [] {
      FilterKeepsOrder(ms[1..], blackList);
      var r := Filtered(ms, blackList);
      var tail := Filtered(ms[1..], blackList);
      if Blacklisted(ms[0].registryKey, blackList) {
        assert r == tail;
      } else {
        assert r == [ms[0]] + tail && r[0] == ms[0] && r[1..] == tail;
      }
    }
  }

  /** Filtering a filtered list changes nothing. */
  lemma {:induction false} FilterIdempotent(ms: seq<WorkResult>, blackList: seq<string>)
    ensures Filtered(Filtered(ms, blackList), blackList) == Filtered(ms, blackList)
    decreases |ms|
  {
    if ms != [] {
      FilterIdempotent(ms[1..], blackList);
      var r := Filtered(ms, blackList);
      var tail := Filtered(ms[1..], blackList);
      if Blacklisted(ms[0].registryKey, blackList) {
        assert r == tail;
      } else {
        assert r == [ms[0]] + tail && r[0] == ms[0] && r[1..] == tail;
      }
    }
  }

  /** An entry holding an upper-case letter never removes anything, since
      it is compared with a lower-cased path: why the entries are given in
      lower case. */
  lemma UpperEntryNeverApplies(path: string, blackList: seq<string>, b: nat, j: int)
    requires b < |blackList| && 0 <= j < |blackList[b]| && IsUpper(blackList[b][j])
    ensures Blacklisted(path, blackList) <==> Blacklisted(path, blackList[..b] + blackList[b + 1..])
  {
    UpperNeverInLowered(path, blackList[b], j);
    var rest := blackList[..b] + blackList[b + 1..];
    if Blacklisted(path, blackList) {
      var e :| 0 <= e < |blackList| && Contains(ToLower(path), blackList[e]);
      if e < b {
        assert rest[e] == blackList[e];
      } else {
        assert rest[e - 1] == blackList[e];
      }
    }
    if Blacklisted(path, rest) {
      var e :| 0 <= e < |rest| && Contains(ToLower(path), rest[e]);
      if e < b {
        assert rest[e] == blackList[e];
      } else {
        assert rest[e] == blackList[e + 1];
      }
    }
  }
}

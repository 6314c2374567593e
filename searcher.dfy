/** The searcher object: its walk over the registry, which appends to the
    match list and bumps the failed-key counter in place, and the final
    filtering and report. */
module Search {
  import opened Registry
  import opened Matching
  import opened Walk
  import opened Hives
  import opened Filtering

  /** What one search leaves in the history: the filtered records, their
      count, and the failed-key counter. */
  datatype Report = Report(matches: seq<WorkResult>, count: nat, failedKeyAccess: int)

  /** The process-wide list of reports; it only ever grows. */
  class History {
    var entries: seq<Report>

    constructor ()
      ensures entries == []
    {
      entries := [];
    }
  }

  class RegistrySearcher {
    const targetName: string
    const blackList: seq<string>
    var failedKeyAccess: int
    var foundMatches: seq<WorkResult>
    var finished: bool

    constructor (targetName: string, blackList: seq<string>)
      ensures this.targetName == targetName && this.blackList == blackList
      ensures foundMatches == [] && failedKeyAccess == 0 && !finished
    {
      this.targetName := targetName;
      this.blackList := blackList;
      foundMatches := [];
      failedKeyAccess := 0;
      finished := false;
    }

    /** Scans the values of a key with no sub-keys, appending a record for
        each match. Returns whether a `GetValue` call threw; the records
        appended before it stay. */
    method GetValue(regKey: Key, valueNames: seq<Value>) returns (threw: bool)
      modifies this`foundMatches
      ensures threw == ScanFrom(regKey.name, valueNames, 0, targetName).threw
      ensures foundMatches == old(foundMatches) + ScanFrom(regKey.name, valueNames, 0, targetName).found
    {
      var i := 0;
      while i < |valueNames|
        invariant i <= |valueNames|
        invariant ScanFrom(regKey.name, valueNames, i, targetName).threw
               == ScanFrom(regKey.name, valueNames, 0, targetName).threw
        invariant foundMatches + ScanFrom(regKey.name, valueNames, i, targetName).found
               == old(foundMatches) + ScanFrom(regKey.name, valueNames, 0, targetName).found
      {
        var valueName := valueNames[i].name;
        match valueNames[i].data {
          case Throws =>
            return true;
          case Ok(value) =>
            ghost var rest := ScanFrom(regKey.name, valueNames, i + 1, targetName);
            if IsMatch(targetName, valueName, value) {
              assert ScanFrom(regKey.name, valueNames, i, targetName).found
                  == [WorkResult(regKey.name, valueName, value)] + rest.found;
              foundMatches := foundMatches + [WorkResult(regKey.name, valueName, value)];
            } else {
              assert ScanFrom(regKey.name, valueNames, i, targetName).found == rest.found;
            }
        }
        i := i + 1;
      }
      return false;
    }

    /** Walks every sub-key of `registryKey`: one with no sub-keys is
        value-scanned, one with sub-keys is walked recursively, and any
        exception on the way counts one failure and moves on to the next
        sibling. A sub-key that opens to null ends the call. Returns whether
        `GetSubKeyNames` threw out of the call. */
    method FindMatches(registryKey: Key) returns (escaped: bool)
      modifies this`foundMatches, this`failedKeyAccess
      ensures escaped == Find(registryKey, targetName).Escaped?
      ensures escaped ==> foundMatches == old(foundMatches) && failedKeyAccess == old(failedKeyAccess)
      ensures !escaped ==>
        && foundMatches == old(foundMatches) + Find(registryKey, targetName).effect.found
        && failedKeyAccess == old(failedKeyAccess) + Find(registryKey, targetName).effect.failed
      ensures old(foundMatches) <= foundMatches && old(failedKeyAccess) <= failedKeyAccess
      decreases registryKey
    {
      if registryKey.subKeyNames.ListThrows? {
        return true;
      }
      var names := registryKey.subKeyNames.openings;
      var i := 0;
      while i < |names|
        invariant i <= |names|
        invariant foundMatches + WalkFrom(registryKey, i, targetName).found
               == old(foundMatches) + WalkFrom(registryKey, 0, targetName).found
        invariant failedKeyAccess + WalkFrom(registryKey, i, targetName).failed
               == old(failedKeyAccess) + WalkFrom(registryKey, 0, targetName).failed
      {
        match names[i] {
          case NullKey =>
            return false;
          case OpenThrows =>
            failedKeyAccess := failedKeyAccess + 1;
          case Opened(regKey) =>
            if regKey.valueNames.Throws? || regKey.subKeyCount.Throws? {
              failedKeyAccess := failedKeyAccess + 1;
            } else if regKey.subKeyCount.value == 0 {
              var threw := GetValue(regKey, regKey.valueNames.value);
              if threw {
                failedKeyAccess := failedKeyAccess + 1;
              }
            } else {
              var nestedEscaped := FindMatches(regKey);
              if nestedEscaped {
                failedKeyAccess := failedKeyAccess + 1;
              }
            }
        }
        i := i + 1;
      }
      return false;
    }

    /** Drops every record whose lower-cased key path contains a blacklist entry. */
    method Filter()
      modifies this`foundMatches
      ensures foundMatches == Filtered(old(foundMatches), blackList)
    {
      foundMatches := Filtered(foundMatches, blackList);
    }

    /** Filters the matches, only then marks the search finished, and appends
        exactly one report, counting the filtered matches, to the history. */
    method ConstructJson(history: History) returns (report: Report)
      modifies this`foundMatches, this`finished, history
      ensures foundMatches == Filtered(old(foundMatches), blackList)
      ensures forall m :: m in foundMatches ==> !Blacklisted(m.registryKey, blackList)
      ensures finished
      ensures report == Report(foundMatches, |foundMatches|, failedKeyAccess)
      ensures history.entries == old(history.entries) + [report]
    {
      Filter();
      finished := true;
      report := Report(foundMatches, |foundMatches|, failedKeyAccess);
      history.entries := history.entries + [report];
    }

    /** Walks every hive to the end. If any walk let an exception escape, the
        search fails (None) without filtering, finishing or reporting;
        otherwise it returns the report `ConstructJson` built. */
    method StartSearch(hives: seq<Key>, history: History) returns (result: Option<Report>)
      modifies this`foundMatches, this`failedKeyAccess, this`finished, history
      ensures result.None? == RunHives(hives, targetName).escaped
      ensures failedKeyAccess == old(failedKeyAccess) + RunHives(hives, targetName).effect.failed
      ensures result.None? ==>
        && foundMatches == old(foundMatches) + RunHives(hives, targetName).effect.found
        && finished == old(finished)
        && history.entries == old(history.entries)
      ensures result.Some? ==>
        && foundMatches == Filtered(old(foundMatches) + RunHives(hives, targetName).effect.found, blackList)
        && finished
        && result.value == Report(foundMatches, |foundMatches|, failedKeyAccess)
        && history.entries == old(history.entries) + [result.value]
    {
      var anyEscaped := false;
      var i := 0;
      while i < |hives|
        invariant i <= |hives|
        invariant anyEscaped == RunHives(hives[..i], targetName).escaped
        invariant foundMatches == old(foundMatches) + RunHives(hives[..i], targetName).effect.found
        invariant failedKeyAccess == old(failedKeyAccess) + RunHives(hives[..i], targetName).effect.failed
        invariant finished == old(finished) && history.entries == old(history.entries)
      {
        ghost var matchesBefore, failuresBefore := foundMatches, failedKeyAccess;
        var escaped := FindMatches(hives[i]);
        ghost var hive := HiveRun(hives[i], targetName);
        assert hive.escaped == escaped;
        assert foundMatches == matchesBefore + hive.effect.found;
        assert failedKeyAccess == failuresBefore + hive.effect.failed;
        anyEscaped := anyEscaped || escaped;
        RunHivesStep(hives, i, targetName);
        i := i + 1;
      }
      assert hives[..|hives|] == hives;
      if anyEscaped {
        return None;
      }
      var report := ConstructJson(history);
      return Some(report);
    }
  }
}

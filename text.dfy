/** The two string operations the searcher relies on: `string.ToLower()`,
    taken here as ASCII lower-casing, and ordinal `string.Contains`. */
module Text {

  predicate IsUpper(c: char) {
    'A' <= c <= 'Z'
  }

  /** Lower-cases one ASCII capital letter; every other character is kept. */
  function LowerChar(c: char): char {
    if IsUpper(c) then (c as int + ('a' as int - 'A' as int)) as char else c
  }

  /** `s.ToLower()`: character by character, and nothing upper-case is left. */
  function ToLower(s: string): (r: string)
    ensures |r| == |s|
    ensures forall i :: 0 <= i < |s| ==> r[i] == LowerChar(s[i]) && !IsUpper(r[i])
  {
    if s == [] then [] else [LowerChar(s[0])] + ToLower(s[1..])
  }

  /** Ordinal `s.Contains(t)`: tries each start position of `s` from the left.
      The empty string is contained in every string. */
  predicate Contains(s: string, t: string)
    decreases |s|
  {
    |t| <= |s| && (s[..|t|] == t || (0 < |s| && Contains(s[1..], t)))
  }

  /** `t` occurs in `s` starting at index `i`. */
  ghost predicate OccursAt(s: string, t: string, i: int) {
    0 <= i && i + |t| <= |s| && s[i..i + |t|] == t
  }

  /** Dropping the first character shifts every occurrence one to the left. */
  lemma OccursShifted(s: string, t: string, i: int)
    requires 0 < |s|
    ensures OccursAt(s[1..], t, i - 1) <==> 1 <= i && OccursAt(s, t, i)
  {
    if 1 <= i && i + |t| <= |s| {
      assert s[1..][i - 1..i - 1 + |t|] == s[i..i + |t|];
    }
  }

  /** The left-to-right search finds `t` exactly when `t` occurs somewhere in `s`. */
  lemma {:induction false} ContainsIff(s: string, t: string)
    ensures Contains(s, t) <==> exists i :: OccursAt(s, t, i)
    decreases |s|
  {
    if |t| <= |s| {
      if s[..|t|] == t {
        assert OccursAt(s, t, 0);
      } else if 0 < |s| {
        ContainsIff(s[1..], t);
        if Contains(s[1..], t) {
          var i :| OccursAt(s[1..], t, i);
          OccursShifted(s, t, i + 1);
        } else {
          forall i | OccursAt(s, t, i)
            ensures false
          {
            OccursShifted(s, t, i);
          }
        }
      }
    }
  }

  /** A string with an upper-case letter never occurs in a lower-cased string:
      why callers must lower-case what they search for. */
  lemma UpperNeverInLowered(s: string, t: string, j: int)
    requires 0 <= j < |t| && IsUpper(t[j])
    ensures !Contains(ToLower(s), t)
  {
    var low := ToLower(s);
    forall i | 0 <= i && i + |t| <= |low|
      ensures !OccursAt(low, t, i)
    {
      assert low[i..i + |t|][j] == low[i + j];
    }
    ContainsIff(low, t);
  }
}

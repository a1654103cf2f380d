/** Prefix and suffix tests on strings, as `startsWith` / `endsWith` do them. */
module Strings {

  predicate StartsWith(s: string, prefix: string)
  {
    |prefix| <= |s| && s[..|prefix|] == prefix
  }

  predicate EndsWith(s: string, suffix: string)
  {
    |suffix| <= |s| && s[|s| - |suffix|..] == suffix
  }

  /** `part` occurs in `s` starting at index `at`. */
  predicate OccursAt(part: string, s: string, at: nat)
  {
    at + |part| <= |s| && s[at..at + |part|] == part
  }
}

/**
 * Dates taken from ISO-8601 timestamps. Every place in the system that needs "today"
 * evaluates `new Date().toISOString().split('T')[0]`; here the timestamp is a parameter.
 */
module Timestamps {
  import opened Strings

  /** `ts.split('T')[0]`: the part of `ts` before its first 'T', or all of `ts` when it has none. */
  function DatePart(ts: string): (r: string)
    ensures StartsWith(ts, r)
    ensures 'T' !in r
    ensures |r| < |ts| ==> ts[|r|] == 'T'
  {
    if ts == [] || ts[0] == 'T' then [] else [ts[0]] + DatePart(ts[1..])
  }

  predicate IsDigit(c: char)
  {
    '0' <= c <= '9'
  }

  /** The shape `YYYY-MM-DDTHH:mm:ss.sssZ` that `Date.prototype.toISOString` produces for years 0 to 9999. */
  predicate IsIsoTimestamp(ts: string)
  {
    && |ts| == 24
    && ts[4] == '-' && ts[7] == '-' && ts[10] == 'T'
    && ts[13] == ':' && ts[16] == ':' && ts[19] == '.' && ts[23] == 'Z'
    && (forall i | i in {0, 1, 2, 3, 5, 6, 8, 9} :: IsDigit(ts[i]))
  }

  /** On a well-formed timestamp the date part is exactly the ten characters `YYYY-MM-DD`. */
  lemma IsoDatePart(ts: string)
    requires IsIsoTimestamp(ts)
    ensures DatePart(ts) == ts[..10]
  {
    assert forall i | 0 <= i < 10 :: ts[i] != 'T' by {
      forall i | 0 <= i < 10 ensures ts[i] != 'T' {
        if i !in {4, 7} {
          assert i in {0, 1, 2, 3, 5, 6, 8, 9};
          assert IsDigit(ts[i]);
        }
      }
    }
  }

  /** The dated resume name `Vu_Le_Resume_<date>.pdf`, built both in the browser and by the CV script. */
  function DatedResumeFilename(ts: string): (name: string)
    ensures StartsWith(name, "Vu_Le_Resume_") && EndsWith(name, ".pdf")
    ensures |name| == |DatePart(ts)| + 17 && name[13..|name| - 4] == DatePart(ts)
  {
    "Vu_Le_Resume_" + DatePart(ts) + ".pdf"
  }
}

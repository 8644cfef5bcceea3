/** The two string operations the frame body relies on: Python's `sub in s`
    and `sep.join(parts)`. */
module Text {

  /** `s` begins with `p`. */
  predicate StartsWith(s: string, p: string) {
    |p| <= |s| && s[..|p|] == p
  }

  /** `sub` occurs in `s` at position `i`. */
  ghost predicate OccursAt(s: string, sub: string, i: int) {
    0 <= i && i + |sub| <= |s| && s[i..i + |sub|] == sub
  }

  /** Python's `sub in s`, scanning the start positions left to right. */
  predicate Contains(s: string, sub: string)
    decreases |s|
  {
    StartsWith(s, sub) || (|s| > 0 && Contains(s[1..], sub))
  }

  /** The scan agrees with the definition of a substring. */
  lemma {:induction false} ContainsIff(s: string, sub: string)
    ensures Contains(s, sub) <==> exists i :: OccursAt(s, sub, i)
    decreases |s|
  {
    if |s| == 0 {
      forall i | OccursAt(s, sub, i) ensures StartsWith(s, sub) {
        assert s[..|sub|] == s[i..i + |sub|];
      }
      if StartsWith(s, sub) {
        assert OccursAt(s, sub, 0);
      }
    } else {
      ContainsIff(s[1..], sub);
      forall i | OccursAt(s, sub, i) ensures StartsWith(s, sub) || OccursAt(s[1..], sub, i - 1) {
        if i == 0 {
          assert s[..|sub|] == s[i..i + |sub|];
        } else {
          assert s[1..][i - 1..i - 1 + |sub|] == s[i..i + |sub|];
        }
      }
      if StartsWith(s, sub) {
        assert OccursAt(s, sub, 0);
      }
      if exists j :: OccursAt(s[1..], sub, j) {
        var j :| OccursAt(s[1..], sub, j);
        assert s[1..][j..j + |sub|] == s[j + 1..j + 1 + |sub|];
        assert OccursAt(s, sub, j + 1);
      }
    }
  }

  /** An occurrence survives text added on either side. */
  lemma OccursInContext(a: string, s: string, b: string, sub: string, i: int)
    requires OccursAt(s, sub, i)
    ensures OccursAt(a + s + b, sub, |a| + i)
  {
    assert (a + s + b)[|a| + i..|a| + i + |sub|] == s[i..i + |sub|];
  }

  /** Python's `sep.join(parts)`. */
  function Join(sep: string, parts: seq<string>): string
    decreases |parts|
  {
    if |parts| == 0 then ""
    else if |parts| == 1 then parts[0]
    else parts[0] + sep + Join(sep, parts[1..])
  }

  /** Every part can be found in the joined text; `at` is where part `k` starts. */
  lemma {:induction false} JoinPartAt(sep: string, parts: seq<string>, k: int) returns (at: int)
    requires 0 <= k < |parts|
    ensures OccursAt(Join(sep, parts), parts[k], at)
    decreases |parts|
  {
    if |parts| == 1 {
      at := 0;
      assert Join(sep, parts)[0..|parts[0]|] == parts[0];
    } else if k == 0 {
      at := 0;
      OccursInContext("", parts[0], sep + Join(sep, parts[1..]), parts[0], 0);
      assert "" + parts[0] + (sep + Join(sep, parts[1..])) == Join(sep, parts);
    } else {
      var inner := JoinPartAt(sep, parts[1..], k - 1);
      OccursInContext(parts[0] + sep, Join(sep, parts[1..]), "", parts[k], inner);
      assert parts[0] + sep + Join(sep, parts[1..]) + "" == Join(sep, parts);
      at := |parts[0] + sep| + inner;
    }
  }

  /** The joined text contains every part. */
  lemma JoinContainsParts(sep: string, parts: seq<string>)
    ensures forall k :: 0 <= k < |parts| ==> Contains(Join(sep, parts), parts[k])
  {
    forall k | 0 <= k < |parts| ensures Contains(Join(sep, parts), parts[k]) {
      var at := JoinPartAt(sep, parts, k);
      ContainsIff(Join(sep, parts), parts[k]);
    }
  }
}

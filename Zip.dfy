/** The ZIP detector `[0-9]{5}(?:-[0-9]{4})?` of the fallback parser: the first
    match is the leftmost run of five digits, extended by a hyphen and four more
    digits when they follow. */
module Zip {
  import opened Wrappers
  import opened Text

  /** Five ASCII digits start at `p`. */
  predicate FiveDigitsAt(s: string, p: int) {
    0 <= p && p + 5 <= |s| && forall j :: p <= j < p + 5 ==> IsDigit(s[j])
  }

  /** The optional group `-[0-9]{4}` follows the five digits at `p`. */
  predicate PlusFourAt(s: string, p: int) {
    0 <= p && p + 10 <= |s| && s[p + 5] == '-'
    && forall j :: p + 6 <= j < p + 10 ==> IsDigit(s[j])
  }

  /** A ZIP code: five digits, or five digits, a hyphen and four digits. */
  predicate ZipShape(z: string) {
    (|z| == 5 || (|z| == 10 && z[5] == '-'))
    && forall j :: 0 <= j < |z| && j != 5 ==> IsDigit(z[j])
  }

  /** The leftmost position at or after `from` where five digits start. */
  function ZipStartFrom(s: string, from: nat): (r: Option<nat>)
    ensures r.Some? ==> from <= r.value && FiveDigitsAt(s, r.value)
    ensures r.Some? ==> forall q :: from <= q < r.value ==> !FiveDigitsAt(s, q)
    ensures r.None? ==> forall q :: from <= q ==> !FiveDigitsAt(s, q)
    decreases |s| - from
  {
    if from + 5 > |s| then None
    else if FiveDigitsAt(s, from) then Some(from)
    else ZipStartFrom(s, from + 1)
  }

  /** Where the first match of the ZIP pattern starts, if there is one. */
  function ZipStart(s: string): (r: Option<nat>)
    ensures r.None? <==> forall q :: !FiveDigitsAt(s, q)
    ensures r.Some? ==> FiveDigitsAt(s, r.value)
    ensures r.Some? ==> forall q :: 0 <= q < r.value ==> !FiveDigitsAt(s, q)
  {
    ZipStartFrom(s, 0)
  }

  /** `re.findall(zip_code_pattern, s)[0]`, or `None` when the list is empty:
      the leftmost five digits, with the "-dddd" extension taken greedily. */
  function FirstZip(s: string): (r: Option<string>)
    ensures r.Some? <==> ZipStart(s).Some?
    ensures r.Some? ==> ZipShape(r.value)
    ensures r.Some? ==>
      var p := ZipStart(s).value;
      p + |r.value| <= |s| && r.value == s[p..p + |r.value|]
      && (|r.value| == 10 <==> PlusFourAt(s, p))
  {
    match ZipStart(s)
    case None => None
    case Some(p) => if PlusFourAt(s, p) then Some(s[p..p + 10]) else Some(s[p..p + 5])
  }

  /** A ZIP code that comes after text without digits is the first match. */
  lemma ZipAfterText(pre: string, z: string)
    requires forall i :: 0 <= i < |pre| ==> !IsDigit(pre[i])
    requires ZipShape(z)
    ensures FirstZip(pre + z) == Some(z)
  {
    var s := pre + z;
    assert FiveDigitsAt(s, |pre|);
    forall q | 0 <= q < |pre|
      ensures !FiveDigitsAt(s, q)
    {
      assert s[q] == pre[q];
    }
    assert ZipStart(s) == Some(|pre|);
    if |z| == 10 {
      assert PlusFourAt(s, |pre|);
    }
    assert s[|pre|..|pre| + |z|] == z;
  }

  /** Text without five consecutive digits holds no ZIP code. */
  lemma NoZipWithoutDigits(s: string)
    requires forall i :: 0 <= i < |s| ==> !IsDigit(s[i])
    ensures FirstZip(s).None?
  {
    forall q
      ensures !FiveDigitsAt(s, q)
    {
      if 0 <= q < |s| {
        assert !IsDigit(s[q]);
      }
    }
  }
}

/** The Python string operations that the address pipeline relies on, restricted
    to ASCII: character classes, `lower`, `title`, `strip`, `split(",")`,
    substring search (`in`, `find`, `re.findall` of a fixed word with
    `re.IGNORECASE`), `partition`, `replace`, and the `str()` of a list of
    strings. */
module Text {
  import opened Wrappers

  // ---------------------------------------------------------------------------
  // Character classes (ASCII)

  /** `str.isspace()` on an ASCII character: tab, line feed, vertical tab, form
      feed, carriage return, the four information separators 0x1C-0x1F, space. */
  predicate IsSpace(c: char) {
    9 <= c as int <= 13 || 28 <= c as int <= 32
  }

  predicate IsDigit(c: char) { '0' <= c <= '9' }

  predicate IsUpper(c: char) { 'A' <= c <= 'Z' }

  predicate IsLower(c: char) { 'a' <= c <= 'z' }

  /** The cased characters of ASCII. */
  predicate IsLetter(c: char) { IsUpper(c) || IsLower(c) }

  predicate IsAlnum(c: char) { IsLetter(c) || IsDigit(c) }

  function ToLower(c: char): (d: char)
    ensures IsLetter(d) <==> IsLetter(c)
    ensures IsLetter(c) ==> IsLower(d)
    ensures !IsLetter(c) ==> d == c
  {
    if IsUpper(c) then (c as int + 32) as char else c
  }

  function ToUpper(c: char): (d: char)
    ensures IsLetter(d) <==> IsLetter(c)
    ensures IsLetter(c) ==> IsUpper(d)
    ensures !IsLetter(c) ==> d == c
  {
    if IsLower(c) then (c as int - 32) as char else c
  }

  /** `s.lower()`. */
  function Lower(s: string): (r: string)
    ensures |r| == |s|
    ensures forall i :: 0 <= i < |s| ==> r[i] == ToLower(s[i])
  {
    seq(|s|, i requires 0 <= i < |s| => ToLower(s[i]))
  }

  // ---------------------------------------------------------------------------
  // title()

  /** One character of `str.title()`: a letter is upper-cased when the character
      before it is not a letter, and lower-cased otherwise; the rest is kept. */
  function TitleChar(afterLetter: bool, c: char): (d: char)
    ensures IsLetter(d) <==> IsLetter(c)
    ensures !IsLetter(c) ==> d == c
    ensures IsLetter(c) ==> (IsUpper(d) <==> !afterLetter)
  {
    if !IsLetter(c) then c else if afterLetter then ToLower(c) else ToUpper(c)
  }

  /** `s.title()`: every run of letters starts upper-case and goes on lower-case. */
  function Title(s: string): (r: string)
    ensures |r| == |s|
    ensures forall i :: 0 <= i < |s| ==> (IsLetter(r[i]) <==> IsLetter(s[i]))
    ensures forall i :: 0 <= i < |s| && !IsLetter(s[i]) ==> r[i] == s[i]
  {
    seq(|s|, i requires 0 <= i < |s| => TitleChar(i > 0 && IsLetter(s[i - 1]), s[i]))
  }

  /** In a title-cased string, a letter is upper-case exactly when it starts a
      run of letters. */
  lemma TitleCase(s: string)
    ensures forall i :: 0 <= i < |s| && IsLetter(s[i]) ==>
      (IsUpper(Title(s)[i]) <==> (i == 0 || !IsLetter(s[i - 1])))
  {
  }

  /** Title-casing a title-cased string changes nothing. */
  lemma TitleIdempotent(s: string)
    ensures Title(Title(s)) == Title(s)
  {
    var t := Title(s);
    TitleCase(s);
    TitleCase(t);
    forall i | 0 <= i < |s|
      ensures Title(t)[i] == t[i]
    {
      if IsLetter(s[i]) {
        assert IsUpper(t[i]) <==> (i == 0 || !IsLetter(t[i - 1]));
      }
    }
  }

  /** Title-casing changes the case of letters and nothing else. */
  lemma TitleSameLower(s: string)
    ensures Lower(Title(s)) == Lower(s)
  {
    forall i | 0 <= i < |s|
      ensures Lower(Title(s))[i] == Lower(s)[i]
    {
    }
  }

  // ---------------------------------------------------------------------------
  // strip()

  /** `s.lstrip()`: drops the leading white space. */
  function LStrip(s: string): (r: string)
    ensures |r| <= |s| && r == s[|s| - |r|..]
    ensures forall i :: 0 <= i < |s| - |r| ==> IsSpace(s[i])
    ensures r == [] || !IsSpace(r[0])
    decreases |s|
  {
    if |s| > 0 && IsSpace(s[0]) then LStrip(s[1..]) else s
  }

  /** `s.rstrip()`: drops the trailing white space. */
  function RStrip(s: string): (r: string)
    ensures |r| <= |s| && r == s[..|r|]
    ensures forall i :: |r| <= i < |s| ==> IsSpace(s[i])
    ensures r == [] || !IsSpace(r[|r| - 1])
    decreases |s|
  {
    if |s| > 0 && IsSpace(s[|s| - 1]) then RStrip(s[..|s| - 1]) else s
  }

  /** A string with no white space at either end. */
  predicate Stripped(s: string) {
    s == [] || (!IsSpace(s[0]) && !IsSpace(s[|s| - 1]))
  }

  /** The number of white-space characters `s.lstrip()` removes. */
  function LeadingSpace(s: string): nat {
    |s| - |LStrip(s)|
  }

  /** `s.strip()`: the longest infix of `s` that has no white space at either end
      and leaves only white space outside it. */
  function Strip(s: string): (r: string)
    ensures Stripped(r)
    ensures LeadingSpace(s) + |r| <= |s| && r == s[LeadingSpace(s)..LeadingSpace(s) + |r|]
    ensures forall k :: 0 <= k < LeadingSpace(s) ==> IsSpace(s[k])
    ensures forall k :: LeadingSpace(s) + |r| <= k < |s| ==> IsSpace(s[k])
  {
    var l := LStrip(s);
    var r := RStrip(l);
    PrefixOfSuffix(s, |s| - |l|, |r|);
    r
  }

  /** A prefix of a suffix is an infix. */
  lemma PrefixOfSuffix(s: string, a: nat, n: nat)
    requires a + n <= |s|
    ensures s[a..][..n] == s[a..a + n]
  {
  }

  /** Stripping a stripped string changes nothing. */
  lemma StripStripped(s: string)
    requires Stripped(s)
    ensures Strip(s) == s
  {
  }

  /** Title-casing keeps a string stripped, since white space is not a letter. */
  lemma TitleKeepsStripped(s: string)
    requires Stripped(s)
    ensures Stripped(Title(s))
  {
  }

  // ---------------------------------------------------------------------------
  // split(sep) and its inverse, join

  /** `s.split(sep)` for a one-character separator: the pieces between the
      separators, in order; an empty string gives one empty piece. */
  function Split(s: string, sep: char): (parts: seq<string>)
    ensures |parts| >= 1
    decreases |s|
  {
    if s == [] then [""]
    else
      var rest := Split(s[1..], sep);
      if s[0] == sep then [""] + rest else [[s[0]] + rest[0]] + rest[1..]
  }

  /** `sep.join(parts)`. */
  function Join(parts: seq<string>, sep: string): string
    decreases |parts|
  {
    if |parts| == 0 then ""
    else if |parts| == 1 then parts[0]
    else parts[0] + sep + Join(parts[1..], sep)
  }

  /** Splitting loses nothing: joining the pieces again gives back the string, no
      piece contains the separator, and the first piece is a prefix of the string. */
  lemma {:induction false} SplitJoin(s: string, sep: char)
    ensures Join(Split(s, sep), [sep]) == s
    ensures forall i :: 0 <= i < |Split(s, sep)| ==> sep !in Split(s, sep)[i]
    ensures Split(s, sep)[0] <= s
    decreases |s|
  {
    if s != [] {
      var rest := Split(s[1..], sep);
      SplitJoin(s[1..], sep);
      if s[0] == sep {
        assert Split(s, sep) == [""] + rest;
        assert Join([""] + rest, [sep]) == "" + [sep] + Join(rest, [sep]);
        assert s == [s[0]] + s[1..];
      } else {
        var parts := Split(s, sep);
        assert parts == [[s[0]] + rest[0]] + rest[1..];
        if |rest| == 1 {
          assert Join(parts, [sep]) == [s[0]] + rest[0];
        } else {
          assert parts[1..] == rest[1..];
          assert Join(parts, [sep]) == [s[0]] + rest[0] + [sep] + Join(rest[1..], [sep]);
          assert Join(rest, [sep]) == rest[0] + [sep] + Join(rest[1..], [sep]);
        }
        assert s == [s[0]] + s[1..];
        forall i | 0 <= i < |parts|
          ensures sep !in parts[i]
        {
          if i > 0 { assert parts[i] == rest[i]; }
        }
      }
    }
  }

  /** Splitting a string that starts with a separator-free piece and a separator. */
  lemma {:induction false} SplitAfterPiece(a: string, sep: char, t: string)
    requires sep !in a
    ensures Split(a + [sep] + t, sep) == [a] + Split(t, sep)
    decreases |a|
  {
    if a == [] {
      assert [sep] + t == a + [sep] + t;
      assert ([sep] + t)[1..] == t;
    } else {
      SplitAfterPiece(a[1..], sep, t);
      assert (a + [sep] + t)[1..] == a[1..] + [sep] + t;
      var rest := Split(a[1..] + [sep] + t, sep);
      assert rest[0] == a[1..];
      assert [a[0]] + a[1..] == a;
    }
  }

  /** A string without the separator is one piece. */
  lemma {:induction false} SplitWhole(a: string, sep: char)
    requires sep !in a
    ensures Split(a, sep) == [a]
    decreases |a|
  {
    if a != [] {
      SplitWhole(a[1..], sep);
      assert [a[0]] + a[1..] == a;
    }
  }

  // ---------------------------------------------------------------------------
  // Substring search

  /** `k` occurs at position `p` of `s`, exactly or (with `ci`, for a lower-case
      `k`) ignoring ASCII case. */
  predicate MatchAt(s: string, p: int, k: string, ci: bool) {
    0 <= p && p + |k| <= |s| && (if ci then Lower(s[p..p + |k|]) == k else s[p..p + |k|] == k)
  }

  /** `k` occurs somewhere in `s`. */
  ghost predicate Occurs(s: string, k: string, ci: bool) {
    exists p :: MatchAt(s, p, k, ci)
  }

  /** The leftmost occurrence of `k` in `s` at or after `from`; the scan that
      `str.find` and `re.search` perform. */
  function FindFrom(s: string, k: string, ci: bool, from: nat): (r: Option<nat>)
    ensures r.Some? ==> from <= r.value && MatchAt(s, r.value, k, ci)
    ensures r.Some? ==> forall q :: from <= q < r.value ==> !MatchAt(s, q, k, ci)
    ensures r.None? ==> forall q :: from <= q ==> !MatchAt(s, q, k, ci)
    decreases |s| - from
  {
    if from + |k| > |s| then None
    else if MatchAt(s, from, k, ci) then Some(from)
    else FindFrom(s, k, ci, from + 1)
  }

  /** The leftmost occurrence of `k` in `s`, if any. */
  function Find(s: string, k: string, ci: bool): (r: Option<nat>)
    ensures r.Some? <==> Occurs(s, k, ci)
    ensures r.Some? ==> MatchAt(s, r.value, k, ci)
    ensures r.Some? ==> forall q :: 0 <= q < r.value ==> !MatchAt(s, q, k, ci)
  {
    FindFrom(s, k, ci, 0)
  }

  /** Python's `k in s`. */
  predicate Contains(s: string, k: string) {
    Find(s, k, false).Some?
  }

  /** `re.match(k, s, re.IGNORECASE)` for a lower-case literal word `k`. */
  predicate StartsCi(s: string, k: string) {
    MatchAt(s, 0, k, true)
  }

  /** An exact occurrence of a string that itself matches `k` ignoring case is
      an occurrence of `k` ignoring case. */
  lemma ExactOfCiIsCi(s: string, p: int, t: string, k: string)
    requires MatchAt(s, p, t, false) && Lower(t) == k
    ensures MatchAt(s, p, k, true)
  {
  }

  /** A match inside a prefix is a match in the whole string, and back. */
  lemma MatchInPrefix(s: string, pre: string, p: int, k: string, ci: bool)
    requires pre <= s && 0 <= p && p + |k| <= |pre|
    ensures MatchAt(pre, p, k, ci) <==> MatchAt(s, p, k, ci)
  {
    assert pre[p..p + |k|] == s[p..p + |k|];
  }

  /** A key longer than the text cannot occur in it. */
  lemma LongerKeyAbsent(s: string, k: string, ci: bool)
    requires |s| < |k|
    ensures !Occurs(s, k, ci)
  {
  }

  /** A key with a character that the text lacks does not occur in it exactly. */
  lemma MissingCharAbsent(s: string, k: string, j: nat)
    requires j < |k| && k[j] !in s
    ensures !Occurs(s, k, false)
  {
  }

  /** `s.partition(t)`: the text before the first exact occurrence of `t`, `t`
      itself, and the rest; or `(s, "", "")` when `t` does not occur. Python
      refuses an empty separator. */
  function Partition(s: string, t: string): (r: (string, string, string))
    requires |t| > 0
    ensures r.0 + r.1 + r.2 == s
    ensures Occurs(s, t, false) ==>
              (r.1 == t && MatchAt(s, |r.0|, t, false)
               && forall q :: 0 <= q < |r.0| ==> !MatchAt(s, q, t, false))
    ensures !Occurs(s, t, false) ==> r == (s, "", "")
  {
    match Find(s, t, false)
    case None => (s, "", "")
    case Some(q) =>
      assert s == s[..q] + s[q..q + |t|] + s[q + |t|..];
      (s[..q], t, s[q + |t|..])
  }

  // ---------------------------------------------------------------------------
  // replace()

  /** `v` before every character of `s` and at its end: `s.replace("", v)`. */
  function InsertEverywhere(s: string, v: string): string
    decreases |s|
  {
    if s == [] then v else v + [s[0]] + InsertEverywhere(s[1..], v)
  }

  /** `s.replace(k, v)`: every non-overlapping occurrence of `k`, scanning from
      the left, is replaced by `v`. */
  function ReplaceAll(s: string, k: string, v: string): string
    decreases |s|
  {
    if |k| == 0 then InsertEverywhere(s, v)
    else if |s| < |k| then s
    else if s[..|k|] == k then v + ReplaceAll(s[|k|..], k, v)
    else [s[0]] + ReplaceAll(s[1..], k, v)
  }

  /** Replacing a key that does not occur changes nothing. */
  lemma {:induction false} ReplaceAbsent(s: string, k: string, v: string)
    requires |k| > 0 && !Occurs(s, k, false)
    ensures ReplaceAll(s, k, v) == s
    decreases |s|
  {
    if |s| >= |k| {
      assert !MatchAt(s, 0, k, false);
      forall p | MatchAt(s[1..], p, k, false)
        ensures false
      {
        assert s[1..][p..p + |k|] == s[p + 1..p + 1 + |k|];
        assert MatchAt(s, p + 1, k, false);
      }
      ReplaceAbsent(s[1..], k, v);
      assert [s[0]] + s[1..] == s;
    }
  }

  /** A key that ends the text, and whose first character the text before it
      lacks, is replaced exactly once, at the end. */
  lemma {:induction false} ReplaceAtEnd(p: string, k: string, v: string)
    requires |k| > 0 && k[0] !in p
    ensures ReplaceAll(p + k, k, v) == p + v
    decreases |p|
  {
    var s := p + k;
    if p == [] {
      assert s == k && s[..|k|] == k && s[|k|..] == [];
    } else {
      assert s[..|k|][0] == p[0];
      assert s[1..] == p[1..] + k;
      ReplaceAtEnd(p[1..], k, v);
      assert [p[0]] + (p[1..] + v) == p + v;
    }
  }

  /** A character that is in neither the key nor the replacement is kept: it
      occurs in the result exactly when it occurs in the text. */
  lemma {:induction false} ReplaceKeepsChar(s: string, k: string, v: string, c: char)
    requires |k| > 0 && c !in k && c !in v
    ensures c in ReplaceAll(s, k, v) <==> c in s
    decreases |s|
  {
    if |s| >= |k| {
      if s[..|k|] == k {
        ReplaceKeepsChar(s[|k|..], k, v, c);
        assert s == s[..|k|] + s[|k|..];
      } else {
        ReplaceKeepsChar(s[1..], k, v, c);
        assert s == [s[0]] + s[1..];
      }
    }
  }

  // ---------------------------------------------------------------------------
  // str() of a list of strings

  /** Python's `repr` of a string without quotes or backslashes in it. */
  function Quoted(s: string): string { "'" + s + "'" }

  /** `str(items)` for a list of strings: `['a', 'b']`, or `[]` when empty. */
  function ListRepr(items: seq<string>): (r: string)
    ensures '[' in r && ']' in r
    ensures |r| >= 2 && r[0] == '[' && r[|r| - 1] == ']'
    ensures items == [] <==> r == "[]"
    ensures items != [] ==> '\'' in r
  {
    var body := Join(seq(|items|, i requires 0 <= i < |items| => Quoted(items[i])), ", ");
    assert items != [] ==> '\'' in body by {
      if items != [] { QuotedJoinHasQuote(seq(|items|, i requires 0 <= i < |items| => Quoted(items[i]))); }
    }
    assert ("[" + body + "]")[0] == '[';
    assert ("[" + body + "]")[|body| + 1] == ']';
    assert items != [] ==> |"[" + body + "]"| > 2;
    "[" + body + "]"
  }

  /** A join of quoted strings starts with a quote. */
  lemma QuotedJoinHasQuote(qs: seq<string>)
    requires |qs| > 0 && |qs[0]| > 0 && qs[0][0] == '\''
    ensures '\'' in Join(qs, ", ")
  {
    assert Join(qs, ", ")[0] == '\'';
  }
}

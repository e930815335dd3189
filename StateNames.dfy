/** The state canonicaliser: the table of full state and territory names with
    their two-letter codes, and the ordered substring replacement over it. */
module StateNames {
  import opened Text

  type Entry = (string, string)

  // The table, in the order of the dictionary literal. It is written as seven
  // consecutive blocks so that facts about it can be proved block by block;
  // "Nevada" and "Virginia" each open a block.

  const Block0: seq<Entry> := [
    ("Alabama", "AL"), ("Alaska", "AK"), ("Arizona", "AZ"), ("Arkansas", "AR"),
    ("California", "CA"), ("Colorado", "CO"), ("Connecticut", "CT"), ("Delaware", "DE"),
    ("Florida", "FL")]
  const Block1: seq<Entry> := [
    ("Georgia", "GA"), ("Hawaii", "HI"), ("Idaho", "ID"), ("Illinois", "IL"),
    ("Indiana", "IN"), ("Iowa", "IA"), ("Kansas", "KS"), ("Kentucky", "KY"),
    ("Louisiana", "LA")]
  const Block2: seq<Entry> := [
    ("Maine", "ME"), ("Maryland", "MD"), ("Massachusetts", "MA"), ("Michigan", "MI"),
    ("Minnesota", "MN"), ("Mississippi", "MS"), ("Missouri", "MO"), ("Montana", "MT"),
    ("Nebraska", "NE")]
  const Block3: seq<Entry> := [
    ("Nevada", "NV"), ("New Hampshire", "NH"), ("New Jersey", "NJ"), ("New Mexico", "NM"),
    ("New York", "NY"), ("North Carolina", "NC"), ("North Dakota", "ND"), ("Ohio", "OH"),
    ("Oklahoma", "OK")]
  const Block4: seq<Entry> := [
    ("Oregon", "OR"), ("Pennsylvania", "PA"), ("Rhode Island", "RI"), ("South Carolina", "SC"),
    ("South Dakota", "SD"), ("Tennessee", "TN"), ("Texas", "TX"), ("Utah", "UT"),
    ("Vermont", "VT")]
  const Block5: seq<Entry> := [
    ("Virginia", "VA"), ("Washington", "WA"), ("West Virginia", "WV"), ("Wisconsin", "WI"),
    ("Wyoming", "WY"), ("District of Columbia", "DC")]
  const Block6: seq<Entry> := [
    ("American Samoa", "AS"), ("Guam", "GU"), ("Northern Mariana Islands", "MP"),
    ("Puerto Rico", "PR"), ("United States Minor Outlying Islands", "UM"),
    ("U.S. Virgin Islands", "VI")]

  /** `us_state_to_abbrev`: 57 names (50 states, the District of Columbia and
      six territories) with their codes, in dictionary order. */
  const StateTable: seq<Entry> := Block0 + Block1 + Block2 + Block3 + Block4 + Block5 + Block6

  // ---------------------------------------------------------------------------
  // The replacement

  /** The text after `text.replace(key, code)` for each entry in turn. */
  function ReplaceEach(text: string, entries: seq<Entry>): string
    decreases |entries|
  {
    if entries == [] then text
    else ReplaceEach(ReplaceAll(text, entries[0].0, entries[0].1), entries[1..])
  }

  /** `multipleReplace(text, wordDict)`: the keys are visited in dictionary order
      and every occurrence of each is rewritten before the next key is looked at. */
  method MultipleReplace(text: string, wordDict: seq<Entry>) returns (r: string)
    ensures r == ReplaceEach(text, wordDict)
  {
    r := text;
    var i := 0;
    while i < |wordDict|
      invariant 0 <= i <= |wordDict|
      invariant ReplaceEach(r, wordDict[i..]) == ReplaceEach(text, wordDict)
    {
      assert wordDict[i..][1..] == wordDict[i + 1..];
      r := ReplaceAll(r, wordDict[i].0, wordDict[i].1);
      i := i + 1;
    }
    assert wordDict[i..] == [];
  }

  /** The canonical form of a state value: `multipleReplace` over the state table. */
  function Canonical(text: string): string {
    ReplaceEach(text, StateTable)
  }

  // ---------------------------------------------------------------------------
  // General facts about the replacement

  /** Replacing over two tables one after the other. */
  lemma {:induction false} ReplaceEachAppend(text: string, a: seq<Entry>, b: seq<Entry>)
    ensures ReplaceEach(text, a + b) == ReplaceEach(ReplaceEach(text, a), b)
    decreases |a|
  {
    if a == [] {
      assert a + b == b;
    } else {
      assert (a + b)[0] == a[0] && (a + b)[1..] == a[1..] + b;
      ReplaceEachAppend(ReplaceAll(text, a[0].0, a[0].1), a[1..], b);
    }
  }

  /** A text in which no key of the table occurs is returned unchanged. */
  lemma {:induction false} ReplaceEachAbsent(text: string, entries: seq<Entry>)
    requires forall e :: e in entries ==> |e.0| > 0 && !Occurs(text, e.0, false)
    ensures ReplaceEach(text, entries) == text
    decreases |entries|
  {
    if entries != [] {
      ReplaceAbsent(text, entries[0].0, entries[0].1);
      assert forall e :: e in entries[1..] ==> e in entries;
      ReplaceEachAbsent(text, entries[1..]);
    }
  }

  /** A character that no key and no code contains survives every replacement,
      and none appears that was not there. */
  lemma {:induction false} ReplaceEachKeepsChar(text: string, entries: seq<Entry>, c: char)
    requires forall e :: e in entries ==> |e.0| > 0 && c !in e.0 && c !in e.1
    ensures c in ReplaceEach(text, entries) <==> c in text
    decreases |entries|
  {
    if entries != [] {
      ReplaceKeepsChar(text, entries[0].0, entries[0].1, c);
      assert forall e :: e in entries[1..] ==> e in entries;
      ReplaceEachKeepsChar(ReplaceAll(text, entries[0].0, entries[0].1), entries[1..], c);
    }
  }

  // ---------------------------------------------------------------------------
  // Facts about the table, proved block by block

  /** A text without brackets and single quotes, the punctuation of a printed list. */
  predicate NoListPunctuation(s: string) {
    forall i :: 0 <= i < |s| ==> s[i] != '[' && s[i] != ']' && s[i] != '\''
  }

  /** A key of at least four characters and a two-letter code, neither of which
      contains list punctuation. */
  predicate PlainEntry(e: Entry) {
    |e.0| >= 4 && |e.1| == 2 && NoListPunctuation(e.0) && NoListPunctuation(e.1)
  }

  /** Every entry of a block is plain; stated by position, which is how the
      solver checks a literal block cheaply. Each block is checked a few
      entries at a time. */
  predicate PlainBlock(b: seq<Entry>) {
    forall i :: 0 <= i < |b| ==> PlainEntry(b[i])
  }

  lemma Block0Plain() ensures PlainBlock(Block0) {
    Block0PlainIn(0, 3); Block0PlainIn(3, 6); Block0PlainIn(6, 9);
  }
  lemma Block0PlainIn(lo: nat, hi: nat)
    requires (lo, hi) == (0, 3) || (lo, hi) == (3, 6) || (lo, hi) == (6, 9)
    ensures forall i :: lo <= i < hi ==> PlainEntry(Block0[i])
  {
  }
  lemma Block1Plain() ensures PlainBlock(Block1) {
    Block1PlainIn(0, 3); Block1PlainIn(3, 6); Block1PlainIn(6, 9);
  }
  lemma Block1PlainIn(lo: nat, hi: nat)
    requires (lo, hi) == (0, 3) || (lo, hi) == (3, 6) || (lo, hi) == (6, 9)
    ensures forall i :: lo <= i < hi ==> PlainEntry(Block1[i])
  {
  }
  lemma Block2Plain() ensures PlainBlock(Block2) {
    Block2PlainIn(0, 3); Block2PlainIn(3, 6); Block2PlainIn(6, 9);
  }
  lemma Block2PlainIn(lo: nat, hi: nat)
    requires (lo, hi) == (0, 3) || (lo, hi) == (3, 6) || (lo, hi) == (6, 9)
    ensures forall i :: lo <= i < hi ==> PlainEntry(Block2[i])
  {
  }
  lemma Block3Plain() ensures PlainBlock(Block3) {
    Block3PlainIn(0, 3); Block3PlainIn(3, 6); Block3PlainIn(6, 9);
  }
  lemma Block3PlainIn(lo: nat, hi: nat)
    requires (lo, hi) == (0, 3) || (lo, hi) == (3, 6) || (lo, hi) == (6, 9)
    ensures forall i :: lo <= i < hi ==> PlainEntry(Block3[i])
  {
  }
  lemma Block4Plain() ensures PlainBlock(Block4) {
    Block4PlainIn(0, 3); Block4PlainIn(3, 6); Block4PlainIn(6, 9);
  }
  lemma Block4PlainIn(lo: nat, hi: nat)
    requires (lo, hi) == (0, 3) || (lo, hi) == (3, 6) || (lo, hi) == (6, 9)
    ensures forall i :: lo <= i < hi ==> PlainEntry(Block4[i])
  {
  }
  lemma Block5Plain() ensures PlainBlock(Block5) {
    Block5PlainIn(0, 3); Block5PlainIn(3, 6);
  }
  lemma Block5PlainIn(lo: nat, hi: nat)
    requires (lo, hi) == (0, 3) || (lo, hi) == (3, 6)
    ensures forall i :: lo <= i < hi ==> PlainEntry(Block5[i])
  {
  }
  lemma Block6Plain() ensures PlainBlock(Block6) {
    Block6PlainAt01(); Block6PlainAt23(); Block6PlainAt4(); Block6PlainAt5();
  }
  // The territory names are long; they are checked one or two at a time.
  lemma Block6PlainAt01() ensures PlainEntry(Block6[0]) && PlainEntry(Block6[1]) {}
  lemma Block6PlainAt23() ensures PlainEntry(Block6[2]) && PlainEntry(Block6[3]) {}
  lemma Block6PlainAt4() ensures PlainEntry(Block6[4]) {}
  lemma Block6PlainAt5() ensures PlainEntry(Block6[5]) {}

  /** Plain by position is plain by membership. */
  lemma PlainMembers(b: seq<Entry>)
    requires PlainBlock(b)
    ensures forall e :: e in b ==> PlainEntry(e)
  {
  }

  /** Every entry of the table is plain. */
  lemma AllPlain()
    ensures forall e :: e in StateTable ==> PlainEntry(e)
  {
    Block0Plain(); Block1Plain(); Block2Plain(); Block3Plain();
    Block4Plain(); Block5Plain(); Block6Plain();
    PlainMembers(Block0); PlainMembers(Block1); PlainMembers(Block2);
    PlainMembers(Block3); PlainMembers(Block4); PlainMembers(Block5);
    PlainMembers(Block6);
  }

  /** A cheap reason why a key of four or more characters cannot occur in a text
      of length `n` whose characters all lie in `chars`: the key is longer, or
      its first, second or fourth character is not among them. */
  predicate Excluded(n: nat, chars: set<char>, key: string)
    requires |key| >= 4
  {
    n < |key| || key[0] !in chars || key[1] !in chars || key[3] !in chars
  }

  lemma ExcludedAbsent(text: string, chars: set<char>, key: string)
    requires forall c :: c in text ==> c in chars
    requires |key| >= 4 && Excluded(|text|, chars, key)
    ensures !Occurs(text, key, false)
  {
    if |text| < |key| {
      LongerKeyAbsent(text, key, false);
    } else if key[0] !in chars {
      MissingCharAbsent(text, key, 0);
    } else if key[1] !in chars {
      MissingCharAbsent(text, key, 1);
    } else {
      MissingCharAbsent(text, key, 3);
    }
  }

  /** Replacement over entries whose keys are all excluded changes nothing. */
  lemma ExcludedBlock(text: string, chars: set<char>, entries: seq<Entry>)
    requires forall c :: c in text ==> c in chars
    requires forall i :: 0 <= i < |entries| ==>
      |entries[i].0| >= 4 && Excluded(|text|, chars, entries[i].0)
    ensures ReplaceEach(text, entries) == text
  {
    forall e | e in entries
      ensures |e.0| > 0 && !Occurs(text, e.0, false)
    {
      var i :| 0 <= i < |entries| && entries[i] == e;
      ExcludedAbsent(text, chars, e.0);
    }
    ReplaceEachAbsent(text, entries);
  }

  // ---------------------------------------------------------------------------
  // Properties of the canonical form

  /** A text shorter than every key is a fixed point: every two-letter code,
      "nan" (the text of a missing value) and "[]" (an empty match list). */
  lemma ShortTextFixed(text: string)
    requires |text| < 4
    ensures Canonical(text) == text
  {
    AllPlain();
    forall e | e in StateTable
      ensures |e.0| > 0 && !Occurs(text, e.0, false)
    {
      LongerKeyAbsent(text, e.0, false);
    }
    ReplaceEachAbsent(text, StateTable);
  }

  /** On such a text, canonicalising twice is canonicalising once. */
  lemma ShortTextIdempotent(text: string)
    requires |text| < 4
    ensures Canonical(Canonical(text)) == Canonical(text)
  {
    ShortTextFixed(text);
  }

  /** Brackets and single quotes neither appear nor disappear. */
  lemma CanonicalKeepsPunctuation(text: string)
    ensures '[' in Canonical(text) <==> '[' in text
    ensures ']' in Canonical(text) <==> ']' in text
    ensures '\'' in Canonical(text) <==> '\'' in text
  {
    AllPlain();
    PlainKeepsPunctuation(text, StateTable);
  }

  /** Replacing over plain entries neither adds nor removes list punctuation. */
  lemma PlainKeepsPunctuation(text: string, entries: seq<Entry>)
    requires forall e :: e in entries ==> PlainEntry(e)
    ensures '[' in ReplaceEach(text, entries) <==> '[' in text
    ensures ']' in ReplaceEach(text, entries) <==> ']' in text
    ensures '\'' in ReplaceEach(text, entries) <==> '\'' in text
  {
    forall e | e in entries
      ensures |e.0| > 0
      ensures '[' !in e.0 && ']' !in e.0 && '\'' !in e.0
      ensures '[' !in e.1 && ']' !in e.1 && '\'' !in e.1
    {
      NoListPunctuationChars(e.0);
      NoListPunctuationChars(e.1);
    }
    ReplaceEachKeepsChar(text, entries, '[');
    ReplaceEachKeepsChar(text, entries, ']');
    ReplaceEachKeepsChar(text, entries, '\'');
  }

  lemma NoListPunctuationChars(s: string)
    requires NoListPunctuation(s)
    ensures '[' !in s && ']' !in s && '\'' !in s
  {
  }

  /** Three different characters need three places. */
  lemma ThreeCharsLong(s: string, a: char, b: char, c: char)
    requires a in s && b in s && c in s && a != b && b != c && a != c
    ensures |s| >= 3
  {
  }

  /** The text of a non-empty list stays longer than a code after canonicalising. */
  lemma CanonicalListLong(items: seq<string>)
    requires items != []
    ensures |Canonical(ListRepr(items))| > 2
  {
    CanonicalKeepsPunctuation(ListRepr(items));
    ThreeCharsLong(Canonical(ListRepr(items)), '[', ']', '\'');
  }

  /** Canonicalising is replacing block by block. */
  lemma CanonicalByBlocks(text: string)
    ensures Canonical(text)
      == ReplaceEach(ReplaceEach(ReplaceEach(ReplaceEach(ReplaceEach(ReplaceEach(ReplaceEach(
           text, Block0), Block1), Block2), Block3), Block4), Block5), Block6)
  {
    var t01 := Block0 + Block1;
    var t02 := t01 + Block2;
    var t03 := t02 + Block3;
    var t04 := t03 + Block4;
    var t05 := t04 + Block5;
    assert StateTable == t05 + Block6;
    ReplaceEachAppend(text, t05, Block6);
    ReplaceEachAppend(text, t04, Block5);
    ReplaceEachAppend(text, t03, Block4);
    ReplaceEachAppend(text, t02, Block3);
    ReplaceEachAppend(text, t01, Block2);
    ReplaceEachAppend(text, Block0, Block1);
  }

  /** A text shorter than every key of some plain entries is left alone by them. */
  lemma ShortFixedBy(text: string, entries: seq<Entry>)
    requires |text| < 4
    requires PlainBlock(entries)
    ensures ReplaceEach(text, entries) == text
  {
    forall e | e in entries
      ensures |e.0| > 0 && !Occurs(text, e.0, false)
    {
      LongerKeyAbsent(text, e.0, false);
    }
    ReplaceEachAbsent(text, entries);
  }

  /** Replacing the first entry of a block, then the rest of it. */
  lemma ReplaceEachFirst(text: string, entries: seq<Entry>)
    requires entries != []
    ensures ReplaceEach(text, entries)
      == ReplaceEach(ReplaceAll(text, entries[0].0, entries[0].1), entries[1..])
  {
  }

  // The concrete texts below are passed as parameters equal to a literal, so
  // that the solver does not try to evaluate the replacement on the literal;
  // each comes with the set of its characters.

  const WestVirginiaChars: set<char> := {'W', 'e', 's', 't', ' ', 'V', 'i', 'r', 'g', 'n', 'a'}
  const WestVAChars: set<char> := {'W', 'e', 's', 't', ' ', 'V', 'A'}
  const NevadaChars: set<char> := {'N', 'e', 'v', 'a', 'd'}

  lemma WestVirginiaCharsCover(s: string)
    requires s == "West Virginia"
    ensures forall c :: c in s ==> c in WestVirginiaChars
  {
  }

  lemma WestVACharsCover(t: string)
    requires t == "West VA"
    ensures forall c :: c in t ==> c in WestVAChars
  {
  }

  lemma NevadaCharsCover(s: string)
    requires s == "Nevada"
    ensures forall c :: c in s ==> c in NevadaChars
  {
  }

  lemma WestVirginiaBlock0(s: string)
    requires s == "West Virginia"
    ensures ReplaceEach(s, Block0) == s
  {
    WestVirginiaCharsCover(s);
    ExcludedBlock(s, WestVirginiaChars, Block0);
  }

  lemma WestVirginiaBlock1(s: string)
    requires s == "West Virginia"
    ensures ReplaceEach(s, Block1) == s
  {
    WestVirginiaCharsCover(s);
    ExcludedBlock(s, WestVirginiaChars, Block1);
  }

  lemma WestVirginiaBlock2(s: string)
    requires s == "West Virginia"
    ensures ReplaceEach(s, Block2) == s
  {
    WestVirginiaCharsCover(s);
    ExcludedBlock(s, WestVirginiaChars, Block2);
  }

  lemma WestVirginiaBlock3(s: string)
    requires s == "West Virginia"
    ensures ReplaceEach(s, Block3) == s
  {
    WestVirginiaCharsCover(s);
    ExcludedBlock(s, WestVirginiaChars, Block3);
  }

  lemma WestVirginiaBlock4(s: string)
    requires s == "West Virginia"
    ensures ReplaceEach(s, Block4) == s
  {
    WestVirginiaCharsCover(s);
    ExcludedBlock(s, WestVirginiaChars, Block4);
  }

  lemma ReplaceVirginia(s: string, t: string)
    requires s == "West Virginia" && t == "West VA"
    ensures ReplaceAll(s, "Virginia", "VA") == t
  {
    var p, k, v := "West ", "Virginia", "VA";
    ReplaceAtEnd(p, k, v);
    assert s == p + k && t == p + v;
  }

  lemma WestVirginiaBlock5(s: string, t: string)
    requires s == "West Virginia" && t == "West VA"
    ensures ReplaceEach(s, Block5) == t
  {
    ReplaceVirginia(s, t);
    ReplaceEachFirst(s, Block5);
    assert Block5[0] == ("Virginia", "VA");
    WestVABlock5Rest(t);
  }

  lemma WestVABlock5Rest(t: string)
    requires t == "West VA"
    ensures ReplaceEach(t, Block5[1..]) == t
  {
    WestVACharsCover(t);
    ExcludedBlock(t, WestVAChars, Block5[1..]);
  }

  lemma WestVABlock6(t: string)
    requires t == "West VA"
    ensures ReplaceEach(t, Block6) == t
  {
    WestVACharsCover(t);
    ExcludedBlock(t, WestVAChars, Block6);
  }

  /** The order hazard: "Virginia" comes before "West Virginia" in the table, so
      "West Virginia" is rewritten to "West VA" and never to "WV". */
  lemma WestVirginiaBecomesWestVA()
    ensures Canonical("West Virginia") == "West VA"
  {
    var s, t := "West Virginia", "West VA";
    CanonicalByBlocks(s);
    WestVirginiaBlock0(s); WestVirginiaBlock1(s); WestVirginiaBlock2(s);
    WestVirginiaBlock3(s); WestVirginiaBlock4(s);
    WestVirginiaBlock5(s, t);
    WestVABlock6(t);
  }

  lemma NevadaBlock0(s: string)
    requires s == "Nevada"
    ensures ReplaceEach(s, Block0) == s
  {
    NevadaCharsCover(s);
    ExcludedBlock(s, NevadaChars, Block0);
  }

  lemma NevadaBlock1(s: string)
    requires s == "Nevada"
    ensures ReplaceEach(s, Block1) == s
  {
    NevadaCharsCover(s);
    ExcludedBlock(s, NevadaChars, Block1);
  }

  lemma NevadaBlock2(s: string)
    requires s == "Nevada"
    ensures ReplaceEach(s, Block2) == s
  {
    NevadaCharsCover(s);
    ExcludedBlock(s, NevadaChars, Block2);
  }

  lemma NevadaBlock3(s: string, t: string)
    requires s == "Nevada" && t == "NV"
    ensures ReplaceEach(s, Block3) == t
  {
    var p, k, v := "", "Nevada", "NV";
    ReplaceAtEnd(p, k, v);
    assert s == p + k && t == p + v;
    ReplaceEachFirst(s, Block3);
    assert Block3[0] == ("Nevada", "NV");
    Block3Plain();
    ShortFixedBy(t, Block3[1..]);
  }

  /** A full name that contains no earlier key becomes its code, e.g. "Nevada". */
  lemma NevadaBecomesNV()
    ensures Canonical("Nevada") == "NV"
  {
    var s, t := "Nevada", "NV";
    CanonicalByBlocks(s);
    NevadaBlock0(s); NevadaBlock1(s); NevadaBlock2(s);
    NevadaBlock3(s, t);
    Block4Plain(); Block5Plain(); Block6Plain();
    ShortFixedBy(t, Block4);
    ShortFixedBy(t, Block5);
    ShortFixedBy(t, Block6);
  }
}

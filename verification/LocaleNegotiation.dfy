/** Accept-Language: the program's map, filter, sort and scan against a direct choice of the best preference.
    Parsing a number is a parameter, so the results hold however the language reads one. */
module LocaleNegotiation {
  import opened Wrappers
  import opened TextNormalization

  datatype Locale = PtBr | En | Es

  const DEFAULT_LOCALE := PtBr

  datatype Header = Absent | One(value: string) | Many(values: seq<string>)

  /** One element of the header without its position. */
  datatype Entry = Entry(locale: Option<Locale>, quality: real, wildcard: bool)

  datatype Preference = Preference(index: nat, entry: Entry)

  /** A finite number, or None for NaN and the infinities. */
  type ParseNumber = string -> Option<real>

  /* ---- Strings ---- */

  /** split(separator): always at least one piece. */
  function Split(s: string, separator: char): (pieces: seq<string>)
    ensures |pieces| > 0
  {
    if s == "" then [""]
    else
      var n := |s| - 1;
      var earlier := Split(s[..n], separator);
      if s[n] == separator then earlier + [""]
      else earlier[..|earlier| - 1] + [earlier[|earlier| - 1] + [s[n]]]
  }

  function Join(pieces: seq<string>, separator: char): string {
    if pieces == [] then ""
    else if |pieces| == 1 then pieces[0]
    else Join(pieces[..|pieces| - 1], separator) + [separator] + pieces[|pieces| - 1]
  }

  function Lower(s: string): string {
    if s == "" then ""
    else
      var c := s[|s| - 1];
      Lower(s[..|s| - 1]) + [if 'A' <= c <= 'Z' then c - 'A' + 'a' else c]
  }

  function Hyphenated(s: string): string {
    if s == "" then "" else Hyphenated(s[..|s| - 1]) + [if s[|s| - 1] == '_' then '-' else s[|s| - 1]]
  }

  /** The position of the first equals sign. */
  function EqualsSign(s: string): (at: Option<nat>)
    ensures at.Some? ==> at.value < |s| && s[at.value] == '='
  {
    if s == "" then None
    else
      var earlier := EqualsSign(s[..|s| - 1]);
      if earlier.Some? then earlier else if s[|s| - 1] == '=' then Some(|s| - 1) else None
  }

  /* ---- The parsers ---- */

  function NormalizeLanguageTag(tag: string): Option<Locale> {
    var primary := Lower(Split(Hyphenated(Trim(tag)), '-')[0]);
    if primary == "pt" then Some(PtBr) else if primary == "en" then Some(En) else if primary == "es" then Some(Es) else None
  }

  predicate IsQualityParameter(parameter: string) {
    Lower(Trim(Split(parameter, '=')[0])) == "q"
  }

  /** The first parameter named q decides; anything but a number from 0 to 1 counts as 0. */
  function ParseQuality(parse: ParseNumber, parameters: seq<string>): real {
    if parameters == [] then 1.0
    else if !IsQualityParameter(parameters[0]) then ParseQuality(parse, parameters[1..])
    else
      var parameter := parameters[0];
      var at := EqualsSign(parameter);
      var quality := parse(Trim(if at.Some? then parameter[at.value + 1..] else parameter));
      if quality.Some? && 0.0 <= quality.value <= 1.0 then quality.value else 0.0
  }

  function ParseEntry(parse: ParseNumber, value: string): Option<Entry> {
    var parts := Split(value, ';');
    var range := Trim(parts[0]);
    if range == "" then None
    else Some(Entry(NormalizeLanguageTag(range), ParseQuality(parse, parts[1..]), range == "*"))
  }

  /* ---- The program ---- */

  /** map(parseLanguagePreference) and filter(defined and quality > 0), positions counted over all elements. */
  function Preferences(parse: ParseNumber, values: seq<string>): seq<Preference> {
    if values == [] then []
    else
      var n := |values| - 1;
      var entry := ParseEntry(parse, values[n]);
      Preferences(parse, values[..n])
      + (if entry.Some? && entry.value.quality > 0.0 then [Preference(n, entry.value)] else [])
  }

  /** The comparator of the sort puts left first. */
  predicate Before(left: Preference, right: Preference) {
    left.entry.quality > right.entry.quality || (left.entry.quality == right.entry.quality && left.index < right.index)
  }

  function InsertSorted(p: Preference, sorted: seq<Preference>): seq<Preference> {
    if sorted == [] || Before(p, sorted[0]) then [p] + sorted else [sorted[0]] + InsertSorted(p, sorted[1..])
  }

  function Sort(preferences: seq<Preference>): seq<Preference> {
    if preferences == [] then [] else InsertSorted(preferences[|preferences| - 1], Sort(preferences[..|preferences| - 1]))
  }

  /** The loop with its early returns. */
  function Scan(sorted: seq<Preference>): Locale {
    if sorted == [] then DEFAULT_LOCALE
    else if sorted[0].entry.locale.Some? then sorted[0].entry.locale.value
    else if sorted[0].entry.wildcard then DEFAULT_LOCALE
    else Scan(sorted[1..])
  }

  function ResolveLocale(parse: ParseNumber, header: Header): Locale {
    match header
    case Absent => DEFAULT_LOCALE
    case One(value) => Scan(Sort(Preferences(parse, Split(value, ','))))
    case Many(values) => Scan(Sort(Preferences(parse, Split(Join(values, ','), ','))))
  }

  /* ---- The direct choice ---- */

  /** An entry that can decide: wanted at all, and supported or a wildcard. */
  predicate Usable(entry: Entry) {
    entry.quality > 0.0 && (entry.locale.Some? || entry.wildcard)
  }

  /** The usable entry of highest quality, the earliest of several. */
  function Best(parse: ParseNumber, values: seq<string>): Option<Entry> {
    if values == [] then None
    else
      var earlier := Best(parse, values[..|values| - 1]);
      var last := ParseEntry(parse, values[|values| - 1]);
      if last.Some? && Usable(last.value) && (earlier.None? || last.value.quality > earlier.value.quality) then last else earlier
  }

  function Chosen(best: Option<Entry>): Locale {
    if best.None? then DEFAULT_LOCALE else best.value.locale.GetOr(DEFAULT_LOCALE)
  }

  /* ---- The sort ---- */

  predicate Sorted(s: seq<Preference>) {
    forall i, j | 0 <= i < j < |s| :: Before(s[i], s[j])
  }

  predicate IncreasingIndex(s: seq<Preference>) {
    forall i, j | 0 <= i < j < |s| :: s[i].index < s[j].index
  }

  /** The comparator is a strict order, total on different positions. */
  lemma BeforeOrders(p: Preference, q: Preference, r: Preference)
    ensures Before(p, q) && Before(q, r) ==> Before(p, r)
    ensures p.index != q.index && !Before(p, q) ==> Before(q, p)
  {
  }

  lemma {:induction false} InsertKeepsSorted(p: Preference, sorted: seq<Preference>)
    requires Sorted(sorted) && forall q | q in sorted :: q.index != p.index
    ensures Sorted(InsertSorted(p, sorted))
    ensures forall q :: q in InsertSorted(p, sorted) <==> q == p || q in sorted
    ensures multiset(InsertSorted(p, sorted)) == multiset(sorted) + multiset{p}
  {
    hide Before;
    if sorted == [] {
    } else if Before(p, sorted[0]) {
      forall j | 0 < j < |sorted|
        ensures Before(p, sorted[j])
      {
        BeforeOrders(p, sorted[0], sorted[j]);
      }
    } else {
      assert sorted == [sorted[0]] + sorted[1..];
      InsertKeepsSorted(p, sorted[1..]);
      BeforeOrders(p, sorted[0], p);
      var rest := InsertSorted(p, sorted[1..]);
      forall j | 0 <= j < |rest|
        ensures Before(sorted[0], rest[j])
      {
        assert rest[j] in rest;
        if rest[j] != p {
          assert rest[j] in sorted[1..];
        }
      }
    }
  }

  lemma {:induction false} SortSorts(s: seq<Preference>)
    requires IncreasingIndex(s)
    ensures Sorted(Sort(s))
    ensures forall q :: q in Sort(s) <==> q in s
    ensures multiset(Sort(s)) == multiset(s)
  {
    if s != [] {
      var n := |s| - 1;
      assert s == s[..n] + [s[n]];
      SortSorts(s[..n]);
      InsertKeepsSorted(s[n], Sort(s[..n]));
    }
  }

  /** Any sorted arrangement is scanned to the same answer: the preference that is usable and before every other. */
  lemma {:induction false} ScanFindsFirst(sorted: seq<Preference>, best: Preference)
    requires Sorted(sorted) && best in sorted && Usable(best.entry)
    requires forall q | q in sorted :: q.entry.quality > 0.0
    requires forall q | q in sorted && Usable(q.entry) :: q == best || Before(best, q)
    ensures Scan(sorted) == Chosen(Some(best.entry))
  {
    if sorted[0] != best {
      assert best in sorted[1..];
      assert Before(sorted[0], best);
      assert !Usable(sorted[0].entry);
      ScanFindsFirst(sorted[1..], best);
    }
  }

  lemma {:induction false} ScanFindsNothing(sorted: seq<Preference>)
    requires forall q | q in sorted :: q.entry.quality > 0.0 && !Usable(q.entry)
    ensures Scan(sorted) == DEFAULT_LOCALE
  {
    if sorted != [] {
      assert sorted[0] in sorted;
      ScanFindsNothing(sorted[1..]);
    }
  }

  lemma {:induction false} PreferencesShape(parse: ParseNumber, values: seq<string>)
    ensures IncreasingIndex(Preferences(parse, values))
    ensures forall q | q in Preferences(parse, values) :: q.index < |values| && q.entry.quality > 0.0
  {
    if values != [] {
      PreferencesShape(parse, values[..|values| - 1]);
    }
  }

  /** The direct choice, as a preference of the list: usable, and before every other usable one. */
  lemma {:induction false} BestIsFirst(parse: ParseNumber, values: seq<string>) returns (best: Preference)
    ensures
      var preferences := Preferences(parse, values);
      if Best(parse, values).None? then forall q | q in preferences :: !Usable(q.entry)
      else
        && best in preferences && Best(parse, values) == Some(best.entry) && Usable(best.entry)
        && forall q | q in preferences && Usable(q.entry) :: q == best || Before(best, q)
  {
    best := Preference(0, Entry(None, 0.0, false));
    if values != [] {
      var n := |values| - 1;
      best := BestIsFirst(parse, values[..n]);
      PreferencesShape(parse, values[..n]);
      var last := ParseEntry(parse, values[n]);
      if last.Some? && Usable(last.value) && (Best(parse, values[..n]).None? || last.value.quality > best.entry.quality) {
        best := Preference(n, last.value);
      }
    }
  }

  /** Map, filter, sort and scan choose exactly the best entry, for every list of elements. */
  lemma SortAndScanIsBest(parse: ParseNumber, values: seq<string>)
    ensures Scan(Sort(Preferences(parse, values))) == Chosen(Best(parse, values))
  {
    var preferences := Preferences(parse, values);
    PreferencesShape(parse, values);
    SortSorts(preferences);
    var best := BestIsFirst(parse, values);
    if Best(parse, values).None? {
      ScanFindsNothing(Sort(preferences));
    } else {
      ScanFindsFirst(Sort(preferences), best);
    }
  }

  /* ---- Headers ---- */

  function Concat(lists: seq<seq<string>>): seq<string> {
    if lists == [] then [] else Concat(lists[..|lists| - 1]) + lists[|lists| - 1]
  }

  function SplitAll(values: seq<string>, separator: char): seq<seq<string>> {
    seq(|values|, i requires 0 <= i < |values| => Split(values[i], separator))
  }

  /** One more character either starts a piece or extends the last one. */
  function Extended(pieces: seq<string>, c: char, separator: char): seq<string>
    requires pieces != []
  {
    if c == separator then pieces + [""] else pieces[..|pieces| - 1] + [pieces[|pieces| - 1] + [c]]
  }

  lemma SplitSnoc(s: string, c: char, separator: char)
    ensures Split(s + [c], separator) == Extended(Split(s, separator), c, separator)
  {
    assert (s + [c])[..|s|] == s;
  }

  lemma ExtendedRight(left: seq<string>, right: seq<string>, c: char, separator: char)
    requires right != []
    ensures Extended(left + right, c, separator) == left + Extended(right, c, separator)
  {
    assert (left + right)[..|left + right| - 1] == left + right[..|right| - 1];
  }

  lemma {:induction false} SplitOfConcatenation(a: string, b: string, separator: char)
    ensures Split(a + [separator] + b, separator) == Split(a, separator) + Split(b, separator)
  {
    if b == "" {
      assert a + [separator] + b == a + [separator];
      SplitSnoc(a, separator, separator);
    } else {
      hide Split;
      var n := |b| - 1;
      assert b == b[..n] + [b[n]];
      assert a + [separator] + b == (a + [separator] + b[..n]) + [b[n]];
      SplitOfConcatenation(a, b[..n], separator);
      SplitSnoc(a + [separator] + b[..n], b[n], separator);
      SplitSnoc(b[..n], b[n], separator);
      ExtendedRight(Split(a, separator), Split(b[..n], separator), b[n], separator);
    }
  }

  lemma {:induction false} SplitOfJoin(values: seq<string>, separator: char)
    requires values != []
    ensures Split(Join(values, separator), separator) == Concat(SplitAll(values, separator))
  {
    var n := |values| - 1;
    var lists := SplitAll(values, separator);
    assert lists[..n] == SplitAll(values[..n], separator);
    if n == 0 {
      assert lists == [Split(values[0], separator)];
      assert Concat(lists) == [] + Split(values[0], separator);
    } else {
      SplitOfJoin(values[..n], separator);
      SplitOfConcatenation(Join(values[..n], separator), values[n], separator);
    }
  }

  /** Every header form resolves to the best of its elements; several headers count as one list, in order. */
  lemma ResolveIsBest(parse: ParseNumber, header: Header)
    ensures ResolveLocale(parse, header) ==
      match header
      case Absent => DEFAULT_LOCALE
      case One(value) => Chosen(Best(parse, Split(value, ',')))
      case Many(values) => Chosen(Best(parse, Concat(SplitAll(values, ','))))
  {
    match header
    case Absent =>
    case One(value) => SortAndScanIsBest(parse, Split(value, ','));
    case Many(values) =>
      SortAndScanIsBest(parse, Split(Join(values, ','), ','));
      if values == [] {
        EmptyHeader(parse);
      } else {
        SplitOfJoin(values, ',');
      }
  }

  lemma EmptyHeader(parse: ParseNumber)
    ensures Best(parse, [""]) == Best(parse, []) == None
  {
    assert [""][..0] == [];
  }

  /** An element that cannot decide: empty, unwanted, or neither supported nor a wildcard. */
  predicate Irrelevant(parse: ParseNumber, value: string) {
    var entry := ParseEntry(parse, value);
    entry.None? || !Usable(entry.value)
  }

  /** The better of the best so far and one more element. */
  function Better(parse: ParseNumber, earlier: Option<Entry>, value: string): Option<Entry> {
    var last := ParseEntry(parse, value);
    if last.Some? && Usable(last.value) && (earlier.None? || last.value.quality > earlier.value.quality) then last else earlier
  }

  lemma BestSnoc(parse: ParseNumber, values: seq<string>, value: string)
    ensures Best(parse, values + [value]) == Better(parse, Best(parse, values), value)
  {
    assert (values + [value])[..|values|] == values;
  }

  lemma {:induction false} IrrelevantIsIgnored(parse: ParseNumber, before: seq<string>, value: string, after: seq<string>)
    requires Irrelevant(parse, value)
    ensures Best(parse, before + [value] + after) == Best(parse, before + after)
  {
    hide Best, ParseEntry;
    if after == [] {
      assert before + [value] + after == before + [value] && before + after == before;
      BestSnoc(parse, before, value);
    } else {
      var n := |after| - 1;
      IrrelevantIsIgnored(parse, before, value, after[..n]);
      assert before + [value] + after == (before + [value] + after[..n]) + [after[n]];
      assert before + after == (before + after[..n]) + [after[n]];
      BestSnoc(parse, before + [value] + after[..n], after[n]);
      BestSnoc(parse, before + after[..n], after[n]);
    }
  }

  /** Inserting an irrelevant element anywhere between two parts of a header changes nothing. */
  lemma InsertingIrrelevantElement(parse: ParseNumber, before: string, value: string, after: string)
    requires Irrelevant(parse, value) && ',' !in value
    ensures ResolveLocale(parse, One(before + "," + value + "," + after)) == ResolveLocale(parse, One(before + "," + after))
  {
    var whole := before + "," + value + "," + after;
    assert before + "," + value == before + [','] + value && whole == (before + "," + value) + [','] + after;
    SplitOfConcatenation(before + "," + value, after, ',');
    SplitOfConcatenation(before, value, ',');
    SplitWithoutSeparator(value, ',');
    assert before + "," + after == before + [','] + after;
    SplitOfConcatenation(before, after, ',');
    IrrelevantIsIgnored(parse, Split(before, ','), value, Split(after, ','));
    ResolveIsBest(parse, One(whole));
    ResolveIsBest(parse, One(before + "," + after));
  }

  lemma {:induction false} SplitWithoutSeparator(s: string, separator: char)
    requires separator !in s
    ensures Split(s, separator) == [s]
  {
    if s != "" {
      var n := |s| - 1;
      assert s == s[..n] + [s[n]];
      SplitWithoutSeparator(s[..n], separator);
    }
  }

  /* ---- What one element says ---- */

  /** Splitting undoes joining. */
  lemma {:induction false} SplitUndoesJoin(pieces: seq<string>, separator: char)
    requires pieces != [] && forall i | 0 <= i < |pieces| :: separator !in pieces[i]
    ensures Split(Join(pieces, separator), separator) == pieces
  {
    var n := |pieces| - 1;
    if n == 0 {
      SplitWithoutSeparator(pieces[0], separator);
    } else {
      SplitUndoesJoin(pieces[..n], separator);
      SplitOfConcatenation(Join(pieces[..n], separator), pieces[n], separator);
      SplitWithoutSeparator(pieces[n], separator);
      assert pieces == pieces[..n] + [pieces[n]];
    }
  }

  /** The first piece ends at the first separator. */
  lemma {:induction false} FirstPiece(s: string, separator: char)
    ensures
      var piece := Split(s, separator)[0];
      && |piece| <= |s| && piece == s[..|piece|] && separator !in piece
      && (|piece| < |s| ==> s[|piece|] == separator)
      && (|piece| == |s| <==> |Split(s, separator)| == 1)
  {
    if s != "" {
      var n := |s| - 1;
      FirstPiece(s[..n], separator);
      assert s == s[..n] + [s[n]];
      assert |Split(s[..n], separator)[0]| < n ==> s[..|Split(s[..n], separator)[0]|] == s[..n][..|Split(s[..n], separator)[0]|];
    }
  }

  lemma {:induction false} LowerPointwise(s: string)
    ensures |Lower(s)| == |s|
    ensures forall i | 0 <= i < |s| :: Lower(s)[i] == if 'A' <= s[i] <= 'Z' then s[i] - 'A' + 'a' else s[i]
  {
    if s != "" {
      LowerPointwise(s[..|s| - 1]);
    }
  }

  lemma {:induction false} HyphenatedPointwise(s: string)
    ensures |Hyphenated(s)| == |s|
    ensures forall i | 0 <= i < |s| :: Hyphenated(s)[i] == if s[i] == '_' then '-' else s[i]
  {
    if s != "" {
      HyphenatedPointwise(s[..|s| - 1]);
    }
  }

  /** The trimmed tag begins with these two letters, in either case, and ends there or goes on with a hyphen or underscore. */
  predicate HasPrimary(tag: string, first: char, second: char)
    requires 'a' <= first <= 'z' && 'a' <= second <= 'z'
  {
    var t := Trim(tag);
    && |t| >= 2
    && (t[0] == first || t[0] == first - 'a' + 'A') && (t[1] == second || t[1] == second - 'a' + 'A')
    && (|t| > 2 ==> t[2] == '-' || t[2] == '_')
  }

  lemma PrimaryWrittenOut(tag: string, first: char, second: char)
    requires 'a' <= first <= 'z' && 'a' <= second <= 'z'
    ensures Lower(Split(Hyphenated(Trim(tag)), '-')[0]) == [first, second] <==> HasPrimary(tag, first, second)
  {
    hide Trim, Split, Hyphenated, Lower;
    var t := Trim(tag);
    var h := Hyphenated(t);
    HyphenatedPointwise(t);
    FirstPiece(h, '-');
    var piece := Split(h, '-')[0];
    LowerPointwise(piece);
    assert forall i | 0 <= i < |piece| :: piece[i] in piece && h[i] == piece[i] && t[i] != '-' && t[i] != '_';
    assert |piece| < |h| ==> t[|piece|] == '-' || t[|piece|] == '_';
    assert Lower(piece) == [first, second] <==> |piece| == 2 && Lower(piece)[0] == first && Lower(piece)[1] == second;
    assert HasPrimary(tag, first, second) ==> |piece| == 2;
  }

  /** The three languages, by their primary subtag alone. */
  lemma TagDecides(tag: string)
    ensures NormalizeLanguageTag(tag) ==
      if HasPrimary(tag, 'p', 't') then Some(PtBr)
      else if HasPrimary(tag, 'e', 'n') then Some(En)
      else if HasPrimary(tag, 'e', 's') then Some(Es)
      else None
  {
    hide Trim, Split, Hyphenated, Lower;
    PrimaryWrittenOut(tag, 'p', 't');
    PrimaryWrittenOut(tag, 'e', 'n');
    PrimaryWrittenOut(tag, 'e', 's');
    hide HasPrimary;
    assert "pt" == ['p', 't'] && "en" == ['e', 'n'] && "es" == ['e', 's'];
  }

  /** The parameter is a name, with spaces around it or not, that is q in either case; a value may follow. */
  predicate IsQ(name: string, rest: string) {
    && '=' !in name && (rest != "" ==> rest[0] == '=')
    && (Trim(name) == "q" || Trim(name) == "Q")
  }

  ghost predicate NamesQuality(parameter: string) {
    exists k | 0 <= k <= |parameter| :: IsQ(parameter[..k], parameter[k..])
  }

  lemma LowerQ(s: string)
    ensures Lower(s) == "q" <==> s == "q" || s == "Q"
  {
    LowerPointwise(s);
    if |s| == 1 {
      assert s == [s[0]];
      assert Lower(s) == [Lower(s)[0]];
    }
  }

  lemma QualityNameIsFirstPiece(name: string, rest: string)
    requires '=' !in name && (rest != "" ==> rest[0] == '=')
    ensures Split(name + rest, '=')[0] == name
  {
    SplitWithoutSeparator(name, '=');
    if rest == "" {
      assert name + rest == name;
    } else {
      assert name + rest == name + ['='] + rest[1..];
      SplitOfConcatenation(name, rest[1..], '=');
    }
  }

  lemma QualityNamesWrittenOut(parameter: string)
    ensures IsQualityParameter(parameter) <==> NamesQuality(parameter)
  {
    FirstPiece(parameter, '=');
    var k := |Split(parameter, '=')[0]|;
    hide Split, Trim, Lower;
    LowerQ(Trim(parameter[..k]));
    if IsQualityParameter(parameter) {
      assert IsQ(parameter[..k], parameter[k..]);
    }
    if NamesQuality(parameter) {
      var i :| 0 <= i <= |parameter| && IsQ(parameter[..i], parameter[i..]);
      assert parameter[..i] + parameter[i..] == parameter;
      QualityNameIsFirstPiece(parameter[..i], parameter[i..]);
      LowerQ(Trim(parameter[..i]));
    }
  }

  lemma {:induction false} FirstEqualsSign(name: string, rest: string)
    requires '=' !in name && (rest != "" ==> rest[0] == '=')
    ensures EqualsSign(name + rest) == if rest == "" then None else Some(|name|)
    decreases |name| + |rest|
  {
    var s := name + rest;
    if rest != "" {
      assert s[..|s| - 1] == name + rest[..|rest| - 1];
      FirstEqualsSign(name, rest[..|rest| - 1]);
    } else if name != "" {
      assert s == name && s[..|s| - 1] == name[..|name| - 1] + "";
      FirstEqualsSign(name[..|name| - 1], "");
    }
  }

  /** The first parameter named q decides the quality; without one it is 1. Its value counts if it is a number from 0 to 1, and
      else as 0; a q without an equals sign is read as its own value. */
  lemma {:induction false} QualityDecides(parse: ParseNumber, before: seq<string>, name: string, rest: string, after: seq<string>)
    requires IsQ(name, rest) && forall i | 0 <= i < |before| :: !NamesQuality(before[i])
    ensures
      var quality := parse(Trim(if rest == "" then name else rest[1..]));
      ParseQuality(parse, before + [name + rest] + after)
      == if quality.Some? && 0.0 <= quality.value && quality.value <= 1.0 then quality.value else 0.0
    decreases before
  {
    hide Trim, Split, Lower, NamesQuality, IsQualityParameter;
    var all := before + [name + rest] + after;
    if before == [] {
      assert all[0] == name + rest;
      assert NamesQuality(name + rest) by {
        QualityIsNamed(name, rest);
      }
      QualityNamesWrittenOut(name + rest);
      FirstEqualsSign(name, rest);
      assert (name + rest)[|name|..] == rest;
      assert rest != "" ==> (name + rest)[|name| + 1..] == rest[1..];
      assert rest == "" ==> name + rest == name;
    } else {
      QualityNamesWrittenOut(before[0]);
      assert all[0] == before[0] && all[1..] == before[1..] + [name + rest] + after;
      QualityDecides(parse, before[1..], name, rest, after);
    }
  }

  lemma QualityIsNamed(name: string, rest: string)
    requires IsQ(name, rest)
    ensures NamesQuality(name + rest)
  {
    var p := name + rest;
    assert p[..|name|] == name && p[|name|..] == rest;
  }

  lemma {:induction false} NoQualityIsOne(parse: ParseNumber, parameters: seq<string>)
    requires forall i | 0 <= i < |parameters| :: !NamesQuality(parameters[i])
    ensures ParseQuality(parse, parameters) == 1.0
  {
    hide NamesQuality, IsQualityParameter;
    if parameters != [] {
      QualityNamesWrittenOut(parameters[0]);
      NoQualityIsOne(parse, parameters[1..]);
    }
  }

  /** An element is its range and its parameters between semicolons; an empty range says nothing, and an asterisk is the
      wildcard. */
  lemma ElementDecides(parse: ParseNumber, range: string, parameters: seq<string>)
    requires ';' !in range && forall i | 0 <= i < |parameters| :: ';' !in parameters[i]
    ensures
      ParseEntry(parse, Join([range] + parameters, ';')) ==
        if Trim(range) == "" then None
        else Some(Entry(NormalizeLanguageTag(range), ParseQuality(parse, parameters), Trim(range) == "*"))
  {
    hide Split, Join, ParseQuality, Lower, Hyphenated, Trim;
    var value := Join([range] + parameters, ';');
    SplitUndoesJoin([range] + parameters, ';');
    assert Split(value, ';')[0] == range && Split(value, ';')[1..] == parameters;
    TrimmedTwice(range);
    SameTag(range);
    hide NormalizeLanguageTag;
  }

  lemma TrimmedTwice(s: string)
    ensures Trim(Trim(s)) == Trim(s)
  {
    TrimShape(s);
    TrimShape(Trim(s));
  }

  lemma SameTag(range: string)
    ensures NormalizeLanguageTag(Trim(range)) == NormalizeLanguageTag(range)
  {
    hide Trim, Split, Lower, Hyphenated;
    TrimmedTwice(range);
  }
}

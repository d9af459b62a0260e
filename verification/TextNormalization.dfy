/** Whitespace normalisation, session text and member text, and the table checks they must pass.
    Strings are sequences of code points. */
module TextNormalization {
  import opened Wrappers

  /** The characters trim() removes and \s matches. */
  predicate IsSpace(c: char) {
    || '\U{0009}' <= c <= '\U{000D}' || c == ' ' || c == '\U{00A0}' || c == '\U{1680}'
    || '\U{2000}' <= c <= '\U{200A}' || c == '\U{2028}' || c == '\U{2029}' || c == '\U{202F}'
    || c == '\U{205F}' || c == '\U{3000}' || c == '\U{FEFF}'
  }

  /** C0 controls and DEL. */
  predicate IsControl(c: char) {
    c <= '\U{001F}' || c == '\U{007F}'
  }

  predicate IsC1(c: char) {
    '\U{0080}' <= c <= '\U{009F}'
  }

  /** C0, DEL and C1: what member text may not hold, and the class [[:cntrl:]] of the database. */
  predicate IsAnyControl(c: char) {
    IsControl(c) || IsC1(c)
  }

  /** validCorrelationIdentifier and isValidAuthSessionDeviceIdentifier: a letter or digit, then letters, digits, dots,
      underscores, colons and hyphens; at most 128 in all. */
  predicate ValidIdentifier(s: string) {
    && 1 <= |s| <= 128
    && IsIdentifierStart(s[0])
    && forall i | 0 < i < |s| :: IsIdentifierStart(s[i]) || s[i] in {'.', '_', ':', '-'}
  }

  predicate IsIdentifierStart(c: char) {
    'A' <= c <= 'Z' || 'a' <= c <= 'z' || '0' <= c <= '9'
  }

  function TrimStart(s: string): string {
    if s != "" && IsSpace(s[0]) then TrimStart(s[1..]) else s
  }

  function TrimEnd(s: string): string {
    if s != "" && IsSpace(s[|s| - 1]) then TrimEnd(s[..|s| - 1]) else s
  }

  function Trim(s: string): string {
    TrimEnd(TrimStart(s))
  }

  /** replace(/\s+/gu, ' '): a run of spaces becomes one plain space, written at its first character. */
  function Collapse(s: string): string {
    if s == "" then ""
    else
      var n := |s| - 1;
      if !IsSpace(s[n]) then Collapse(s[..n]) + [s[n]]
      else if n > 0 && IsSpace(s[n - 1]) then Collapse(s[..n])
      else Collapse(s[..n]) + " "
  }

  /** normalizeWhitespace, and normalizeOrganizationMemberText. */
  function Normalize(s: string): string {
    Collapse(Trim(s))
  }

  function BlankControls(s: string): string {
    if s == "" then "" else BlankControls(s[..|s| - 1]) + [if IsControl(s[|s| - 1]) then ' ' else s[|s| - 1]]
  }

  /** No space at either end. */
  predicate Trimmed(s: string) {
    s != "" ==> !IsSpace(s[0]) && !IsSpace(s[|s| - 1])
  }

  /** Every space is a plain one, and none follows another. */
  predicate SingleSpaced(s: string) {
    forall i | 0 <= i < |s| && IsSpace(s[i]) :: s[i] == ' ' && (i > 0 ==> !IsSpace(s[i - 1]))
  }

  /* ---- Fixpoints ---- */

  lemma PlainSpaceIsSpace()
    ensures IsSpace(' ')
  {
  }

  lemma {:induction false} CollapseShape(s: string)
    ensures SingleSpaced(Collapse(s)) && |Collapse(s)| <= |s|
    ensures s == "" <==> Collapse(s) == ""
    ensures s != "" ==>
      && (IsSpace(s[0]) <==> IsSpace(Collapse(s)[0]))
      && (IsSpace(s[|s| - 1]) <==> IsSpace(Collapse(s)[|Collapse(s)| - 1]))
  {
    hide IsSpace;
    PlainSpaceIsSpace();
    if s != "" {
      CollapseShape(s[..|s| - 1]);
    }
  }

  lemma {:induction false} CollapseFixpoint(s: string)
    requires SingleSpaced(s)
    ensures Collapse(s) == s
  {
    hide IsSpace;
    if s != "" {
      var n := |s| - 1;
      assert s == s[..n] + [s[n]];
      assert forall i | 0 <= i < n :: s[..n][i] == s[i];
      CollapseFixpoint(s[..n]);
    }
  }

  lemma {:induction false} TrimStartShape(s: string)
    ensures TrimStart(s) != "" ==> !IsSpace(TrimStart(s)[0])
    ensures |TrimStart(s)| <= |s|
    ensures TrimStart(s) == s[|s| - |TrimStart(s)|..]
    ensures TrimStart(s) == s <==> s == "" || !IsSpace(s[0])
  {
    if s != "" && IsSpace(s[0]) {
      TrimStartShape(s[1..]);
    }
  }

  lemma {:induction false} TrimEndShape(s: string)
    ensures TrimEnd(s) != "" ==> !IsSpace(TrimEnd(s)[|TrimEnd(s)| - 1])
    ensures |TrimEnd(s)| <= |s| && TrimEnd(s) == s[..|TrimEnd(s)|]
    ensures TrimEnd(s) == s <==> s == "" || !IsSpace(s[|s| - 1])
    ensures s != "" && !IsSpace(s[0]) ==> TrimEnd(s) != ""
  {
    if s != "" && IsSpace(s[|s| - 1]) {
      TrimEndShape(s[..|s| - 1]);
    }
  }

  lemma TrimShape(s: string)
    ensures Trimmed(Trim(s))
    ensures Trim(s) == s <==> Trimmed(s)
  {
    TrimStartShape(s);
    TrimEndShape(TrimStart(s));
    TrimEndShape(s);
    if Trim(s) == s {
      assert |TrimStart(s)| == |s|;
    }
  }

  /** The results of normalisation are the trimmed single-spaced strings, those are exactly its fixpoints, and so
      normalising twice changes nothing. */
  lemma NormalizeFixpoints(s: string)
    ensures Trimmed(Normalize(s)) && SingleSpaced(Normalize(s))
    ensures Normalize(s) == s <==> Trimmed(s) && SingleSpaced(s)
    ensures Normalize(Normalize(s)) == Normalize(s)
  {
    forall t
      ensures Trimmed(Normalize(t)) && SingleSpaced(Normalize(t))
      ensures Trimmed(t) && SingleSpaced(t) ==> Normalize(t) == t
    {
      hide IsSpace;
      TrimShape(t);
      CollapseShape(Trim(t));
      if SingleSpaced(t) {
        CollapseFixpoint(t);
      }
    }
  }

  /* ---- Words ---- */

  /** The runs of characters that are no spaces. */
  function Words(s: string): (words: seq<string>)
    ensures s != "" && !IsSpace(s[|s| - 1]) ==> words != []
  {
    if s == "" then []
    else
      var n := |s| - 1;
      var earlier := Words(s[..n]);
      if IsSpace(s[n]) then earlier
      else if n > 0 && !IsSpace(s[n - 1]) then earlier[..|earlier| - 1] + [earlier[|earlier| - 1] + [s[n]]]
      else earlier + [[s[n]]]
  }

  lemma {:induction false} CollapseKeepsWords(s: string)
    ensures Words(Collapse(s)) == Words(s)
  {
    hide IsSpace;
    PlainSpaceIsSpace();
    if s != "" {
      var n := |s| - 1;
      CollapseKeepsWords(s[..n]);
      CollapseShape(s[..n]);
      if !IsSpace(s[n]) || n == 0 || !IsSpace(s[n - 1]) {
        var c := if IsSpace(s[n]) then ' ' else s[n];
        assert Collapse(s) == Collapse(s[..n]) + [c];
        assert (Collapse(s[..n]) + [c])[..|Collapse(s[..n])|] == Collapse(s[..n]);
      }
    }
  }

  lemma {:induction false} SpaceInFrontIsNoWord(c: char, s: string)
    requires IsSpace(c)
    ensures Words([c] + s) == Words(s)
  {
    hide IsSpace;
    if s == "" {
      assert [c] + s == [c] && [c][..0] == "";
    } else {
      var n := |s| - 1;
      SpaceInFrontIsNoWord(c, s[..n]);
      assert ([c] + s)[..n + 1] == [c] + s[..n];
    }
  }

  lemma {:induction false} TrimmingKeepsWords(s: string)
    ensures Words(TrimStart(s)) == Words(s) && Words(TrimEnd(s)) == Words(s)
    decreases |s|
  {
    hide IsSpace;
    if s != "" {
      if IsSpace(s[0]) {
        TrimmingKeepsWords(s[1..]);
        SpaceInFrontIsNoWord(s[0], s[1..]);
        assert s == [s[0]] + s[1..];
      }
      if IsSpace(s[|s| - 1]) {
        TrimmingKeepsWords(s[..|s| - 1]);
      }
    }
  }

  /** Normalisation keeps the words of a text, in order. */
  lemma NormalizeKeepsWords(s: string)
    ensures Words(Normalize(s)) == Words(s)
  {
    hide Words, Collapse;
    TrimmingKeepsWords(s);
    TrimmingKeepsWords(TrimStart(s));
    CollapseKeepsWords(Trim(s));
  }

  /* ---- Member text ---- */

  /** UTF-16 length, the language's own. */
  function Utf16Length(s: string): nat {
    if s == "" then 0 else Utf16Length(s[..|s| - 1]) + (if s[|s| - 1] as int > 0xFFFF then 2 else 1)
  }

  predicate IsValidNormalizedText(s: string, maximumLength: nat) {
    && Utf16Length(s) > 0
    && |s| <= maximumLength
    && (forall i | 0 <= i < |s| :: !IsAnyControl(s[i]))
    && s == Normalize(s)
  }

  /** A text is valid exactly when it is non-empty, short enough, free of controls, trimmed and single-spaced; and
      then every space in it is a plain one. */
  lemma ValidTextIsCanonical(s: string, maximumLength: nat)
    ensures IsValidNormalizedText(s, maximumLength) <==>
            && s != "" && |s| <= maximumLength
            && (forall i | 0 <= i < |s| :: !IsAnyControl(s[i]))
            && !IsSpace(s[0]) && !IsSpace(s[|s| - 1])
            && (forall i | 0 < i < |s| && IsSpace(s[i]) :: s[i] == ' ' && !IsSpace(s[i - 1]))
  {
    NormalizeFixpoints(s);
  }

  /* ---- Session text ---- */

  const DEVICE_NAME_MAXIMUM_LENGTH := 120
  const USER_AGENT_MAXIMUM_LENGTH := 512

  /** The text before it is cut. */
  function Cleaned(s: string): string {
    Trim(Collapse(BlankControls(s)))
  }

  /** sanitizeAuthSessionText */
  function SanitizeText(value: Option<string>, maximumLength: nat): Option<string> {
    if value.None? then None
    else
      var sanitized := Cleaned(value.value);
      if |sanitized| == 0 then None
      else Some(if |sanitized| <= maximumLength then sanitized else sanitized[..maximumLength])
  }

  /** The table's check on device name and user agent: absent, or not empty, equal to its btrim (which strips plain
      spaces only) and without any control. */
  predicate TableTextCheck(value: Option<string>) {
    value.Some? ==>
      var s := value.value;
      && |s| > 0
      && s[0] != ' ' && s[|s| - 1] != ' '
      && forall i | 0 <= i < |s| :: !IsAnyControl(s[i])
  }

  /** The text is too long and its last character kept is a space. */
  predicate CutAfterSpace(value: Option<string>, maximumLength: nat)
    requires maximumLength > 0
  {
    value.Some? && |Cleaned(value.value)| > maximumLength && Cleaned(value.value)[maximumLength - 1] == ' '
  }

  /** A C1 control is among the characters kept. */
  predicate KeepsC1(value: Option<string>, maximumLength: nat) {
    value.Some? && exists i | 0 <= i < |Cleaned(value.value)| && i < maximumLength :: IsC1(Cleaned(value.value)[i])
  }

  lemma {:induction false} BlankControlsShape(s: string)
    ensures |BlankControls(s)| == |s|
    ensures forall i | 0 <= i < |s| :: BlankControls(s)[i] == if IsControl(s[i]) then ' ' else s[i]
  {
    if s != "" {
      BlankControlsShape(s[..|s| - 1]);
    }
  }

  lemma {:induction false} CollapseKeepsCharacters(s: string)
    ensures forall i | 0 <= i < |Collapse(s)| :: Collapse(s)[i] == ' ' || Collapse(s)[i] in s
  {
    if s != "" {
      CollapseKeepsCharacters(s[..|s| - 1]);
    }
  }

  /** Before the cut the text has no control, no double, leading or trailing space. */
  lemma CleanedShape(s: string)
    ensures Trimmed(Cleaned(s)) && SingleSpaced(Cleaned(s)) && |Cleaned(s)| <= |s|
    ensures forall i | 0 <= i < |Cleaned(s)| :: !IsControl(Cleaned(s)[i])
    ensures Trimmed(s) && SingleSpaced(s) && (forall i | 0 <= i < |s| :: !IsControl(s[i])) ==> Cleaned(s) == s
  {
    hide IsSpace, Trim, TrimStart, TrimEnd, Collapse, BlankControls, SingleSpaced, IsControl;
    var blanked := BlankControls(s);
    var collapsed := Collapse(blanked);
    BlankControlsShape(s);
    CollapseShape(blanked);
    CollapseKeepsCharacters(blanked);
    TrimIsSlice(collapsed);
    TrimShape(collapsed);
    SpaceIsNoControl();
    if forall i | 0 <= i < |s| :: !IsControl(s[i]) {
      assert blanked == s;
      if SingleSpaced(s) {
        CollapseFixpoint(s);
      }
    }
  }

  lemma SpaceIsNoControl()
    ensures !IsControl(' ')
  {
  }

  /** Trimming takes a slice, and a slice of a single-spaced string is single-spaced. */
  lemma TrimIsSlice(s: string)
    ensures |Trim(s)| <= |s|
    ensures forall i | 0 <= i < |Trim(s)| :: Trim(s)[i] in s
    ensures SingleSpaced(s) ==> SingleSpaced(Trim(s))
  {
    hide IsSpace;
    TrimStartShape(s);
    TrimEndShape(TrimStart(s));
    var k := |s| - |TrimStart(s)|;
    assert forall i | 0 <= i < |Trim(s)| :: Trim(s)[i] == s[k + i];
  }

  /** What is stored has at most the allowed code points, no C0 control or DEL, no double and no leading space. The table
      takes it exactly when it was not cut right after a space and kept no C1 control; it is left alone by a second pass
      exactly when it was not cut right after a space. */
  lemma SanitizedTextPassesExactly(value: Option<string>, maximumLength: nat)
    requires maximumLength > 0
    ensures
      var stored := SanitizeText(value, maximumLength);
      && (stored.Some? ==>
            && 0 < |stored.value| <= maximumLength
            && SingleSpaced(stored.value) && !IsSpace(stored.value[0])
            && forall i | 0 <= i < |stored.value| :: !IsControl(stored.value[i]))
      && (TableTextCheck(stored) <==> !CutAfterSpace(value, maximumLength) && !KeepsC1(value, maximumLength))
      && (SanitizeText(stored, maximumLength) == stored <==> !CutAfterSpace(value, maximumLength))
  {
    hide IsSpace, IsControl, IsC1, Cleaned;
    PlainSpaceIsSpace();
    var stored := SanitizeText(value, maximumLength);
    if stored.Some? {
      CleanedShape(value.value);
      var t := stored.value;
      assert t == Cleaned(value.value)[..|t|];
      CleanedShape(t);
      if t[|t| - 1] == ' ' {
        assert Cleaned(t) != t;
        assert |t| == maximumLength;
      } else {
        assert Cleaned(t) == t;
      }
    }
  }

  /** What is stored is the beginning of a text with the same words as the given one, where controls count as spaces; nothing is
      stored exactly when there are no words. */
  lemma SanitizedTextKeepsWords(value: string, maximumLength: nat)
    ensures
      var blanked := seq(|value|, i requires 0 <= i < |value| => if IsControl(value[i]) then ' ' else value[i]);
      var cleaned := Cleaned(value);
      && Words(cleaned) == Words(blanked)
      && SanitizeText(Some(value), maximumLength) ==
           (if Words(blanked) == [] then None
            else Some(if |cleaned| <= maximumLength then cleaned else cleaned[..maximumLength]))
  {
    hide IsSpace, IsControl, BlankControls, Collapse, TrimStart, TrimEnd, Words, Trimmed, SingleSpaced;
    var blanked := seq(|value|, i requires 0 <= i < |value| => if IsControl(value[i]) then ' ' else value[i]);
    BlankControlsShape(value);
    assert BlankControls(value) == blanked;
    CollapseKeepsWords(blanked);
    TrimmingKeepsWords(Collapse(blanked));
    TrimmingKeepsWords(TrimStart(Collapse(blanked)));
    NoWordsIsEmpty(value);
  }

  /** Cleaned text without words is empty. */
  lemma NoWordsIsEmpty(value: string)
    ensures Words(Cleaned(value)) == [] <==> Cleaned(value) == ""
  {
    hide IsSpace, Cleaned, SingleSpaced;
    CleanedShape(value);
  }

  /** A user agent of 511 letters, a space and one more letter is cut right after its space and refused by the table. */
  lemma CutAfterSpaceExists()
    ensures
      var agent := seq(511, _ => 'a') + " b";
      var stored := SanitizeText(Some(agent), USER_AGENT_MAXIMUM_LENGTH);
      stored == Some(seq(511, _ => 'a') + " ") && !TableTextCheck(stored)
  {
    var agent := seq(511, _ => 'a') + " b";
    assert agent[|agent| - 1] == 'b' && agent[0] == 'a';
    CleanedShape(agent);
    assert Cleaned(agent)[..512] == seq(511, _ => 'a') + " ";
  }

  /** A user agent with the C1 control U+0085 between two letters is neither changed nor cut, and refused by the table. */
  lemma KeptC1Exists()
    ensures
      var agent := Some("a\U{0085}b");
      && SanitizeText(agent, USER_AGENT_MAXIMUM_LENGTH) == agent
      && !CutAfterSpace(agent, USER_AGENT_MAXIMUM_LENGTH) && !TableTextCheck(agent)
  {
    var agent := "a\U{0085}b";
    CleanedShape(agent);
    hide Cleaned;
    assert IsAnyControl(agent[1]);
  }
}

/** The identity of a published job: the digest of its name, NUL and its idempotency key. Strings are sequences of
    UTF-16 code units, because the digest is taken of their UTF-8 form and a lone surrogate has none. */
module JobIdentity {
  import opened Wrappers
  import TextNormalization

  type Unit = x: int | 0 <= x < 0x10000

  type Text = seq<Unit>

  const NUL: Unit := 0
  const LOW_SURROGATE: Unit := 0xDC00
  const REPLACEMENT: Unit := 0xFFFD
  const JOB_NAME_MAXIMUM_LENGTH := 128
  const IDEMPOTENCY_KEY_MAXIMUM_LENGTH := 512

  predicate High(u: Unit) {
    0xD800 <= u < 0xDC00
  }

  predicate Low(u: Unit) {
    0xDC00 <= u < 0xE000
  }

  /** A text begins with a surrogate pair. */
  predicate Paired(s: Text) {
    |s| >= 2 && High(s[0]) && Low(s[1])
  }

  /** A code point UTF-8 can carry. */
  type Scalar = c: int | 0 <= c < 0xD800 || 0xE000 <= c < 0x110000

  function Joined(high: Unit, low: Unit): Scalar
    requires High(high) && Low(low)
  {
    0x10000 + (high - 0xD800) * 0x400 + (low - 0xDC00)
  }

  function Alone(u: Unit): Scalar {
    if High(u) || Low(u) then REPLACEMENT else u
  }

  /** What the UTF-8 encoder writes: pairs joined, every lone surrogate replaced by U+FFFD. */
  function Scalars(s: Text): seq<Scalar> {
    if s == [] then []
    else if Paired(s) then [Joined(s[0], s[1])] + Scalars(s[2..])
    else [Alone(s[0])] + Scalars(s[1..])
  }

  /** No lone surrogate. */
  predicate WellFormed(s: Text) {
    if s == [] then true
    else if Paired(s) then WellFormed(s[2..])
    else !High(s[0]) && !Low(s[0]) && WellFormed(s[1..])
  }

  /** One code point in UTF-16. */
  function Units(c: Scalar): Text {
    if c < 0x10000 then [c] else [0xD800 + (c - 0x10000) / 0x400, 0xDC00 + (c - 0x10000) % 0x400]
  }

  function Encoded(cs: seq<Scalar>): Text {
    if cs == [] then [] else Units(cs[0]) + Encoded(cs[1..])
  }

  /** The first code point and the rest. */
  lemma ScalarsUnfold(s: Text)
    requires s != []
    ensures Paired(s) ==> Scalars(s) == [Joined(s[0], s[1])] + Scalars(s[2..]) && (WellFormed(s) <==> WellFormed(s[2..]))
    ensures !Paired(s) ==>
              && Scalars(s) == [Alone(s[0])] + Scalars(s[1..])
              && (WellFormed(s) <==> !High(s[0]) && !Low(s[0]) && WellFormed(s[1..]))
  {
  }

  /** The second text is the first with at most some surrogates replaced. */
  predicate OnlyReplaced(s: Text, t: Text) {
    && |t| == |s|
    && forall i | 0 <= i < |s| :: t[i] == s[i] || (t[i] == REPLACEMENT && (High(s[i]) || Low(s[i])))
  }

  lemma ReplacedPieces(head: Text, tail: Text, newHead: Text, newTail: Text)
    requires OnlyReplaced(head, newHead) && OnlyReplaced(tail, newTail)
    ensures OnlyReplaced(head + tail, newHead + newTail)
    ensures newHead + newTail == head + tail <==> newHead == head && newTail == tail
  {
    hide High, Low;
    if newHead + newTail == head + tail {
      assert newHead == (newHead + newTail)[..|head|] && newTail == (newHead + newTail)[|head|..];
      assert head == (head + tail)[..|head|] && tail == (head + tail)[|head|..];
    }
  }

  /** Reading back what was written; only texts with a lone surrogate change. */
  lemma {:induction false} EncodedScalars(s: Text)
    ensures OnlyReplaced(s, Encoded(Scalars(s)))
    ensures WellFormed(s) <==> Encoded(Scalars(s)) == s
  {
    if s != [] {
      ScalarsUnfold(s);
      var k := if Paired(s) then 2 else 1;
      var c := if Paired(s) then Joined(s[0], s[1]) else Alone(s[0]);
      HeadSurvives(s);
      hide Scalars, WellFormed, Encoded, OnlyReplaced, Units, Joined, Alone;
      EncodedScalars(s[k..]);
      EncodedUnfold(c, Scalars(s[k..]));
      ReplacedPieces(s[..k], s[k..], Units(c), Encoded(Scalars(s[k..])));
      assert s == s[..k] + s[k..];
    }
  }

  /** The units of the first code point: unchanged exactly when they are no lone surrogate. */
  lemma HeadSurvives(s: Text)
    requires s != []
    ensures Paired(s) ==> Units(Joined(s[0], s[1])) == s[..2] && OnlyReplaced(s[..2], Units(Joined(s[0], s[1])))
    ensures !Paired(s) ==> OnlyReplaced(s[..1], Units(Alone(s[0]))) && (Units(Alone(s[0])) == s[..1] <==> !High(s[0]) && !Low(s[0]))
  {
    if Paired(s) {
      PairSurvives(s[0], s[1]);
    } else {
      AloneSurvives(s[0]);
    }
  }

  lemma EncodedUnfold(c: Scalar, cs: seq<Scalar>)
    ensures Encoded([c] + cs) == Units(c) + Encoded(cs)
  {
    assert ([c] + cs)[1..] == cs;
  }

  /** A single unit is written back as itself, or as U+FFFD where it is a surrogate. */
  lemma AloneSurvives(u: Unit)
    ensures Units(Alone(u)) == [if High(u) || Low(u) then REPLACEMENT else u]
    ensures High(u) || Low(u) ==> u != REPLACEMENT
  {
  }

  lemma PairSurvives(high: Unit, low: Unit)
    requires High(high) && Low(low)
    ensures Units(Joined(high, low)) == [high, low]
  {
  }

  lemma {:induction false} ScalarsEncoded(cs: seq<Scalar>)
    ensures Scalars(Encoded(cs)) == cs
  {
    if cs != [] {
      var rest := Encoded(cs[1..]);
      var units := Units(cs[0]) + rest;
      ScalarsEncoded(cs[1..]);
      if cs[0] < 0x10000 {
        assert units[1..] == rest;
      } else {
        assert units[2..] == rest;
      }
    }
  }

  /** U+FFFD is written for a lone surrogate or for itself. */
  lemma {:induction false} WhenReplacementIsWritten(s: Text)
    ensures REPLACEMENT in Scalars(s) <==> !WellFormed(s) || REPLACEMENT in s
  {
    if s != [] {
      if Paired(s) {
        WhenReplacementIsWritten(s[2..]);
        assert s == [s[0], s[1]] + s[2..];
      } else {
        WhenReplacementIsWritten(s[1..]);
        assert s == [s[0]] + s[1..];
      }
    }
  }

  /* ---- Names, keys and ids ---- */

  predicate LowerLetter(u: Unit) {
    'a' as int <= u <= 'z' as int
  }

  predicate Alphanumeric(u: Unit) {
    LowerLetter(u) || '0' as int <= u <= '9' as int
  }

  predicate Separator(u: Unit) {
    u == '.' as int || u == '-' as int
  }

  /** assertJobName: a letter first, then letters and digits in groups parted by single dots or hyphens. */
  predicate ValidJobName(name: Text) {
    && 0 < |name| <= JOB_NAME_MAXIMUM_LENGTH
    && LowerLetter(name[0])
    && !Separator(name[|name| - 1])
    && forall i | 0 < i < |name| :: Alphanumeric(name[i]) || (Separator(name[i]) && !Separator(name[i - 1]))
  }

  /** What of a name is still to come: its first letter, more of a group, or the start of the next group. */
  datatype NameState = AtStart | InGroup | AfterSeparator

  /** The automaton of ^[a-z][a-z0-9]*(?:[.-][a-z0-9]+)*$ */
  predicate NamePattern(rest: Text, state: NameState) {
    if rest == [] then state == InGroup
    else
      var u := rest[0];
      match state
      case AtStart => 97 <= u <= 122 && NamePattern(rest[1..], InGroup)
      case InGroup =>
        if u == 46 || u == 45 then NamePattern(rest[1..], AfterSeparator)
        else (97 <= u <= 122 || 48 <= u <= 57) && NamePattern(rest[1..], InGroup)
      case AfterSeparator => (97 <= u <= 122 || 48 <= u <= 57) && NamePattern(rest[1..], InGroup)
  }

  /** Groups parted by single separators, whatever came before. */
  predicate Groups(rest: Text, afterSeparator: bool) {
    && (rest == [] ==> !afterSeparator)
    && (rest != [] ==> !Separator(rest[|rest| - 1]) && (afterSeparator ==> !Separator(rest[0])))
    && forall i | 0 <= i < |rest| :: Alphanumeric(rest[i]) || (Separator(rest[i]) && (i > 0 ==> !Separator(rest[i - 1])))
  }

  lemma GroupsUnfold(rest: Text, afterSeparator: bool)
    requires rest != []
    ensures Groups(rest, afterSeparator) <==>
            || (Alphanumeric(rest[0]) && Groups(rest[1..], false))
            || (Separator(rest[0]) && !afterSeparator && Groups(rest[1..], true))
  {
    var tail := rest[1..];
    assert forall i | 0 <= i < |tail| :: tail[i] == rest[i + 1];
    assert forall i | 0 < i < |rest| :: rest[i] == tail[i - 1];
    assert forall u: Unit :: !(Alphanumeric(u) && Separator(u));
    hide Alphanumeric, Separator;
  }

  lemma {:induction false} PatternIsGroups(rest: Text, afterSeparator: bool)
    ensures NamePattern(rest, if afterSeparator then AfterSeparator else InGroup) <==> Groups(rest, afterSeparator)
  {
    if rest != [] {
      PatternIsGroups(rest[1..], false);
      PatternIsGroups(rest[1..], true);
      GroupsUnfold(rest, afterSeparator);
      hide Groups;
    }
  }

  /** The valid names are those of at most 128 characters that match the pattern. */
  lemma ValidNamesMatchThePattern(name: Text)
    ensures ValidJobName(name) <==> |name| <= 128 && NamePattern(name, AtStart)
  {
    if name != [] {
      PatternIsGroups(name[1..], false);
      if Groups(name[1..], false) {
        assert forall i | 0 < i < |name| :: name[i] == name[1..][i - 1];
      }
    }
  }

  predicate SpaceUnit(u: Unit) {
    !High(u) && !Low(u) && TextNormalization.IsSpace(u as char)
  }

  predicate ControlUnit(u: Unit) {
    u <= 0x1F || u == 0x7F
  }

  /** assertIdempotencyKey */
  predicate ValidIdempotencyKey(key: Text) {
    && 0 < |key| <= IDEMPOTENCY_KEY_MAXIMUM_LENGTH
    && !SpaceUnit(key[0]) && !SpaceUnit(key[|key| - 1])
    && forall i | 0 <= i < |key| :: !ControlUnit(key[i])
  }

  /** The id of a record in a queue. SHA-256 is collision-free: a generated id is as good as what was digested. */
  datatype JobId = Generated(preimage: seq<Scalar>) | Foreign(text: string)

  datatype IdentityFault = InvalidJobName | InvalidIdempotencyKey

  function Preimage(name: Text, key: Text): seq<Scalar> {
    Scalars(name) + [NUL] + Scalars(key)
  }

  /** queueJobId */
  function QueueJobId(name: Text, key: Text): Result<JobId, IdentityFault> {
    if !ValidJobName(name) then Err(InvalidJobName)
    else if !ValidIdempotencyKey(key) then Err(InvalidIdempotencyKey)
    else Ok(Generated(Preimage(name, key)))
  }

  /** Everything before the first NUL, and everything after it. */
  function Split(preimage: seq<Scalar>): (seq<Scalar>, seq<Scalar>) {
    if preimage == [] then ([], [])
    else if preimage[0] == NUL then ([], preimage[1..])
    else var rest := Split(preimage[1..]); ([preimage[0]] + rest.0, rest.1)
  }

  lemma {:induction false} SplitPreimage(name: seq<Scalar>, key: seq<Scalar>)
    requires NUL !in name
    ensures Split(name + [NUL] + key) == (name, key)
  {
    var whole := name + [NUL] + key;
    if name != [] {
      assert whole[1..] == name[1..] + [NUL] + key;
      SplitPreimage(name[1..], key);
      assert whole[0] == name[0] && name == [name[0]] + name[1..];
    } else {
      assert whole[1..] == key;
    }
  }

  /** A text without surrogates is written as it is. */
  lemma {:induction false} PlainScalars(s: Text)
    requires forall i | 0 <= i < |s| :: !High(s[i]) && !Low(s[i])
    ensures Scalars(s) == s
  {
    if s != [] {
      PlainScalars(s[1..]);
    }
  }

  /** The digested string is uniquely decodable: NUL ends the name. */
  lemma PreimageDecodes(name: Text, key: Text)
    requires QueueJobId(name, key).Ok?
    ensures QueueJobId(name, key) == Ok(Generated(name + [0] + Scalars(key)))
    ensures Split(QueueJobId(name, key).value.preimage) == (name, Scalars(key))
  {
    PlainScalars(name);
    SplitPreimage(name, Scalars(key));
  }

  /** Two publishes share an id exactly when the names agree and the keys are written alike. For keys without a lone
      surrogate that is: exactly when both parts agree. */
  lemma SameIdExactlyForSameParts(name: Text, key: Text, otherName: Text, otherKey: Text)
    requires QueueJobId(name, key).Ok? && QueueJobId(otherName, otherKey).Ok?
    ensures QueueJobId(name, key) == QueueJobId(otherName, otherKey) <==> name == otherName && Scalars(key) == Scalars(otherKey)
    ensures WellFormed(key) && WellFormed(otherKey) ==>
            (QueueJobId(name, key) == QueueJobId(otherName, otherKey) <==> name == otherName && key == otherKey)
  {
    PreimageDecodes(name, key);
    PreimageDecodes(otherName, otherKey);
    EncodedScalars(key);
    EncodedScalars(otherKey);
  }

  /** Two accepted keys of one character each, both a lone surrogate, give the same id. */
  lemma LoneSurrogatesCollide()
    ensures
      var name: Text := ['a' as int];
      && QueueJobId(name, [0xD800]).Ok?
      && QueueJobId(name, [0xD800]) == QueueJobId(name, [0xD801])
  {
    assert Scalars([0xD800]) == [REPLACEMENT] == Scalars([0xD801]);
  }

  /** No other accepted key has this key's id under the same name. */
  ghost predicate OwnsItsId(name: Text, key: Text) {
    forall other: Text | QueueJobId(name, other).Ok? && QueueJobId(name, other) == QueueJobId(name, key) :: other == key
  }

  /** A key has an id of its own exactly when it has no lone surrogate and no U+FFFD. */
  lemma KeyOwnsItsIdExactlyWithoutReplacement(name: Text, key: Text)
    requires QueueJobId(name, key).Ok?
    ensures OwnsItsId(name, key) <==> WellFormed(key) && REPLACEMENT !in key
  {
    if WellFormed(key) && REPLACEMENT !in key {
      forall other: Text | QueueJobId(name, other).Ok? && QueueJobId(name, other) == QueueJobId(name, key)
        ensures other == key
      {
        SameIdExactlyForSameParts(name, key, name, other);
        WhenReplacementIsWritten(key);
        WhenReplacementIsWritten(other);
      }
    } else {
      var other := Alias(key);
      AliasSharesTheId(key);
      assert QueueJobId(name, other) == QueueJobId(name, key) && other != key;
    }
  }

  /** Another key written alike: lone surrogates replaced, or else the first U+FFFD turned into a lone surrogate. */
  ghost function Alias(key: Text): Text
    requires !WellFormed(key) || REPLACEMENT in key
  {
    if !WellFormed(key) then Encoded(Scalars(key))
    else
      var i :| 0 <= i < |key| && key[i] == REPLACEMENT;
      key[i := LOW_SURROGATE]
  }

  lemma MarksAreNoSpaces()
    ensures !SpaceUnit(REPLACEMENT) && !SpaceUnit(LOW_SURROGATE)
    ensures !ControlUnit(REPLACEMENT) && !ControlUnit(LOW_SURROGATE)
  {
  }

  lemma AliasSharesTheId(key: Text)
    requires ValidIdempotencyKey(key) && (!WellFormed(key) || REPLACEMENT in key)
    ensures Alias(key) != key && ValidIdempotencyKey(Alias(key)) && Scalars(Alias(key)) == Scalars(key)
  {
    hide SpaceUnit, ControlUnit, Encoded, Scalars, WellFormed;
    MarksAreNoSpaces();
    if !WellFormed(key) {
      EncodedScalars(key);
      ScalarsEncoded(Scalars(key));
    } else {
      var i :| 0 <= i < |key| && key[i] == REPLACEMENT && Alias(key) == key[i := LOW_SURROGATE];
      LoneSurrogateForReplacement(key, i);
    }
  }

  lemma {:induction false} LoneSurrogateForReplacement(s: Text, i: nat)
    requires WellFormed(s) && i < |s| && s[i] == REPLACEMENT
    ensures Scalars(s[i := LOW_SURROGATE]) == Scalars(s)
  {
    hide Scalars, WellFormed;
    var t := s[i := LOW_SURROGATE];
    ScalarsUnfold(s);
    ScalarsUnfold(t);
    if Paired(s) {
      assert t[2..] == s[2..][i - 2 := LOW_SURROGATE];
      LoneSurrogateForReplacement(s[2..], i - 2);
    } else if i > 0 {
      assert t[1..] == s[1..][i - 1 := LOW_SURROGATE];
      LoneSurrogateForReplacement(s[1..], i - 1);
    } else {
      assert t[1..] == s[1..];
    }
  }
}

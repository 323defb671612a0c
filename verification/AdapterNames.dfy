/** AdapterNameToConditionType, on the bytes of the name, and the names it can be undone on. */
module AdapterNames {
  import opened Sequences

  type Byte = b: int | 0 <= b < 256

  const HYPHEN: Byte := 45

  predicate IsUpper(b: Byte) { 65 <= b <= 90 }

  predicate IsLower(b: Byte) { 97 <= b <= 122 }

  predicate IsDigit(b: Byte) { 48 <= b <= 57 }

  /** "Successful" */
  const SUFFIX: seq<Byte> := [83, 117, 99, 99, 101, 115, 115, 102, 117, 108]

  /** strings.ToUpper of a one-byte string: a byte that starts no character becomes U+FFFD. */
  function Upper(b: Byte): seq<Byte> {
    if IsLower(b) then [b - 32] else if b < 128 then [b] else [0xEF, 0xBF, 0xBD]
  }

  function Capitalize(part: seq<Byte>): seq<Byte> {
    if part == [] then [] else Upper(part[0]) + part[1..]
  }

  function Capitalized(parts: seq<seq<Byte>>): seq<Byte> {
    if parts == [] then [] else Capitalize(parts[0]) + Capitalized(parts[1..])
  }

  function ConditionType(name: seq<Byte>): seq<Byte> {
    Capitalized(Split(name, HYPHEN)) + SUFFIX
  }

  lemma {:induction false} CapitalizedAppend(parts: seq<seq<Byte>>, more: seq<seq<Byte>>)
    ensures Capitalized(parts + more) == Capitalized(parts) + Capitalized(more)
  {
    if parts == [] {
      assert parts + more == more;
    } else {
      assert (parts + more)[1..] == parts[1..] + more;
      CapitalizedAppend(parts[1..], more);
    }
  }

  lemma CapitalizedOne(part: seq<Byte>)
    ensures Capitalized([part]) == Capitalize(part)
  {
    assert Capitalize(part) + [] == Capitalize(part);
  }

  lemma CapitalizedNext(parts: seq<seq<Byte>>, i: nat)
    requires i < |parts|
    ensures Capitalized(parts[..i + 1]) == Capitalized(parts[..i]) + Capitalize(parts[i])
  {
    assert parts[..i + 1] == parts[..i] + [parts[i]];
    CapitalizedAppend(parts[..i], [parts[i]]);
    CapitalizedOne(parts[i]);
  }

  /** The builder loop. */
  method AdapterNameToConditionType(name: seq<Byte>) returns (result: seq<Byte>)
    ensures result == ConditionType(name)
    ensures EndsInSuccessful(result)
    ensures HYPHEN !in name ==> result == StartUpper(name) + SUFFIX
  {
    var parts := Split(name, HYPHEN);
    result := [];
    for i := 0 to |parts|
      invariant result == Capitalized(parts[..i])
    {
      var part := parts[i];
      CapitalizedNext(parts, i);
      if |part| > 0 {
        Regroup(result, Upper(part[0]), part[1..]);
        result := result + Upper(part[0]) + part[1..];
      }
    }
    assert parts[..|parts|] == parts;
    result := result + SUFFIX;
    TypeOfSegment(name);
  }

  // ---------------------------------------------------------------- segment by segment

  /** A segment with its first byte upper-cased, if it is a lower-case letter; a first byte beyond ASCII becomes the
      three bytes of U+FFFD. */
  function StartUpper(part: seq<Byte>): seq<Byte> {
    if part == [] then []
    else if 'a' as int <= part[0] <= 'z' as int then [part[0] - 32] + part[1..]
    else if part[0] > 127 then [0xEF, 0xBF, 0xBD] + part[1..]
    else part
  }

  predicate EndsInSuccessful(result: seq<Byte>) {
    && |result| >= |"Successful"|
    && forall i :: 0 <= i < |"Successful"| ==> result[|result| - |"Successful"| + i] == "Successful"[i] as int
  }

  lemma TypeOfSegment(name: seq<Byte>)
    ensures EndsInSuccessful(ConditionType(name))
    ensures HYPHEN !in name ==> ConditionType(name) == StartUpper(name) + SUFFIX
  {
    SuffixEnds(Capitalized(Split(name, HYPHEN)));
    if HYPHEN !in name {
      SplitWhole(name, HYPHEN);
      CapitalizedOne(name);
      CapitalizeIsStartUpper(name);
    }
  }

  lemma CapitalizeIsStartUpper(part: seq<Byte>)
    ensures Capitalize(part) == StartUpper(part)
  {
    if part != [] { assert [part[0]] + part[1..] == part; }
  }

  lemma SuffixEnds(body: seq<Byte>)
    ensures EndsInSuccessful(body + SUFFIX)
  {
    SuffixIsSuccessful();
  }

  lemma SuffixIsSuccessful()
    ensures |SUFFIX| == |"Successful"| && forall i :: 0 <= i < |SUFFIX| ==> SUFFIX[i] == "Successful"[i] as int
  {
  }

  /** A hyphen only separates: the first segment is upper-cased by itself,
      and what follows converts as it would alone. */
  lemma TypeOfHyphenated(segment: seq<Byte>, rest: seq<Byte>)
    requires HYPHEN !in segment
    ensures ConditionType(segment + [HYPHEN] + rest) == StartUpper(segment) + ConditionType(rest)
  {
    var name := segment + [HYPHEN] + rest;
    SplitAt(segment, HYPHEN, rest);
    CapitalizedAppend([segment], Split(rest, HYPHEN));
    CapitalizedOne(segment);
    CapitalizeIsStartUpper(segment);
    Regroup(StartUpper(segment), Capitalized(Split(rest, HYPHEN)), SUFFIX);
  }

  // ---------------------------------------------------------------- the inverse

  /** A segment whose capital is the only upper-case byte it gets. */
  predicate PlainPart(part: seq<Byte>) {
    part != [] && IsLower(part[0]) && forall i :: 0 <= i < |part| ==> !IsUpper(part[i])
  }

  predicate Plain(name: seq<Byte>) {
    forall i :: 0 <= i < |Split(name, HYPHEN)| ==> PlainPart(Split(name, HYPHEN)[i])
  }

  /** The names that turn out to be those the conversion can be undone on. */
  predicate Recoverable(name: seq<Byte>) {
    name == [] || Plain(name)
  }

  predicate CanonicalPart(part: seq<Byte>) {
    part != [] && IsLower(part[0]) && forall i :: 0 <= i < |part| ==> IsLower(part[i]) || IsDigit(part[i])
  }

  /** Non-empty segments, each a lower-case letter followed by lower-case letters or digits. */
  predicate Canonical(name: seq<Byte>) {
    forall i :: 0 <= i < |Split(name, HYPHEN)| ==> CanonicalPart(Split(name, HYPHEN)[i])
  }

  /** Cut before every upper-case letter, and lower that letter. The first piece is what comes before any. */
  function Pieces(s: seq<Byte>): (pieces: seq<seq<Byte>>)
    ensures |pieces| >= 1
  {
    if s == [] then [[]]
    else
      var rest := Pieces(s[1..]);
      if IsUpper(s[0]) then [[], [s[0] + 32] + rest[0]] + rest[1..] else [[s[0]] + rest[0]] + rest[1..]
  }

  function NameOf(conditionType: seq<Byte>): seq<Byte>
    requires |conditionType| >= |SUFFIX|
  {
    var pieces := Pieces(conditionType[..|conditionType| - |SUFFIX|]);
    if |pieces| == 1 then [] else Join(pieces[1..], HYPHEN)
  }

  lemma {:induction false} PiecesOfPlain(plain: seq<Byte>, rest: seq<Byte>)
    requires forall i :: 0 <= i < |plain| ==> !IsUpper(plain[i])
    ensures Pieces(plain + rest) == [plain + Pieces(rest)[0]] + Pieces(rest)[1..]
  {
    if plain == [] {
      assert plain + rest == rest && plain + Pieces(rest)[0] == Pieces(rest)[0];
      assert [Pieces(rest)[0]] + Pieces(rest)[1..] == Pieces(rest);
    } else {
      assert (plain + rest)[1..] == plain[1..] + rest;
      PiecesOfPlain(plain[1..], rest);
      assert [plain[0]] + (plain[1..] + Pieces(rest)[0]) == plain + Pieces(rest)[0];
    }
  }

  lemma {:induction false} PiecesOfCapitalized(parts: seq<seq<Byte>>)
    requires forall i :: 0 <= i < |parts| ==> PlainPart(parts[i])
    ensures Pieces(Capitalized(parts)) == [[]] + parts
  {
    if parts != [] {
      PiecesOfCapitalized(parts[1..]);
      PieceAdded(parts[0], Capitalized(parts[1..]), parts[1..]);
      assert [parts[0]] + parts[1..] == parts;
    }
  }

  lemma PieceAdded(part: seq<Byte>, rest: seq<Byte>, parts: seq<seq<Byte>>)
    requires PlainPart(part) && Pieces(rest) == [[]] + parts
    ensures Pieces(Capitalize(part) + rest) == [[]] + ([part] + parts)
  {
    var capital, tail := part[0] - 32, part[1..];
    PiecesOfPlain(tail, rest);
    assert Pieces(rest)[0] == [] && Pieces(rest)[1..] == parts && tail + [] == tail;
    CutBeforeCapital(capital, tail + rest, tail, parts);
    Regroup([capital], tail, rest);
    assert Capitalize(part) == [capital] + tail && [capital + 32] + tail == part;
  }

  lemma CutBeforeCapital(capital: Byte, tail: seq<Byte>, first: seq<Byte>, parts: seq<seq<Byte>>)
    requires IsUpper(capital) && Pieces(tail) == [first] + parts
    ensures Pieces([capital] + tail) == [[]] + ([[capital + 32] + first] + parts)
  {
    assert ([capital] + tail)[1..] == tail;
    assert ([first] + parts)[1..] == parts;
  }

  lemma NameOfConditionType(name: seq<Byte>)
    ensures var pieces := Pieces(Capitalized(Split(name, HYPHEN)));
            NameOf(ConditionType(name)) == if |pieces| == 1 then [] else Join(pieces[1..], HYPHEN)
  {
    assert ConditionType(name)[..|ConditionType(name)| - |SUFFIX|] == Capitalized(Split(name, HYPHEN));
  }

  lemma PlainNameRecovered(name: seq<Byte>)
    requires Plain(name)
    ensures NameOf(ConditionType(name)) == name
  {
    var parts := Split(name, HYPHEN);
    PiecesOfCapitalized(parts);
    NameOfConditionType(name);
    assert ([[]] + parts)[1..] == parts;
    JoinSplit(name, HYPHEN);
  }

  lemma EmptyNameRecovered()
    ensures NameOf(ConditionType([])) == []
  {
    NameOfConditionType([]);
    assert Capitalized([[]]) == Capitalize([]) + Capitalized([[]][1..]);
    assert Pieces(Capitalized(Split([], HYPHEN))) == [[]];
  }

  predicate NoHyphen(s: seq<Byte>) {
    forall i :: 0 <= i < |s| ==> s[i] != HYPHEN
  }

  predicate NoUpper(s: seq<Byte>) {
    forall i :: 0 <= i < |s| ==> !IsUpper(s[i])
  }

  lemma {:induction false} PiecesArePlain(s: seq<Byte>)
    requires NoHyphen(s)
    ensures NoHyphen(Pieces(s)[0]) && NoUpper(Pieces(s)[0])
    ensures forall i :: 1 <= i < |Pieces(s)| ==> NoHyphen(Pieces(s)[i]) && PlainPart(Pieces(s)[i])
  {
    if s != [] {
      PiecesArePlain(s[1..]);
      PieceBefore(s[0], Pieces(s[1..]));
      var rest := Pieces(s[1..]);
      if IsUpper(s[0]) {
        assert Pieces(s) == [[], [s[0] + 32] + rest[0]] + rest[1..];
      } else {
        assert Pieces(s) == [[s[0]] + rest[0]] + rest[1..];
      }
    }
  }

  lemma PieceBefore(b: Byte, rest: seq<seq<Byte>>)
    requires b != HYPHEN && |rest| >= 1 && NoHyphen(rest[0]) && NoUpper(rest[0])
    ensures IsUpper(b) ==> PlainPart([b + 32] + rest[0]) && NoHyphen([b + 32] + rest[0])
    ensures !IsUpper(b) ==> NoUpper([b] + rest[0]) && NoHyphen([b] + rest[0])
  {
  }

  lemma {:induction false} CapitalizedHasNoHyphen(parts: seq<seq<Byte>>)
    requires forall i :: 0 <= i < |parts| ==> NoHyphen(parts[i])
    ensures NoHyphen(Capitalized(parts))
  {
    if parts != [] {
      CapitalizedHasNoHyphen(parts[1..]);
      assert NoHyphen(parts[0]);
      assert NoHyphen(Capitalize(parts[0]));
    }
  }

  lemma PiecesOfName(name: seq<Byte>)
    ensures var pieces := Pieces(Capitalized(Split(name, HYPHEN)));
            forall i :: 1 <= i < |pieces| ==> NoHyphen(pieces[i]) && PlainPart(pieces[i])
  {
    var parts := Split(name, HYPHEN);
    forall i | 0 <= i < |parts| ensures NoHyphen(parts[i]) {
      assert parts[i] in parts;
    }
    CapitalizedHasNoHyphen(parts);
    PiecesArePlain(Capitalized(parts));
  }

  lemma RecoveredIsPlain(name: seq<Byte>)
    requires NameOf(ConditionType(name)) == name && name != []
    ensures Plain(name)
  {
    var pieces := Pieces(Capitalized(Split(name, HYPHEN)));
    NameOfConditionType(name);
    PiecesOfName(name);
    var parts := pieces[1..];
    forall p | p in parts ensures HYPHEN !in p {
      var i :| 0 <= i < |parts| && parts[i] == p;
      assert NoHyphen(pieces[i + 1]);
    }
    SplitJoin(parts, HYPHEN);
    forall i | 0 <= i < |parts| ensures PlainPart(parts[i]) {
      assert parts[i] == pieces[i + 1];
    }
  }

  /** The conversion can be undone exactly on the empty name and on names whose segments are non-empty, start with a
      lower-case letter and hold no upper-case one. */
  lemma RecoveredIff(name: seq<Byte>)
    ensures NameOf(ConditionType(name)) == name <==> Recoverable(name)
  {
    if name == [] {
      EmptyNameRecovered();
    } else if Plain(name) {
      PlainNameRecovered(name);
    } else if NameOf(ConditionType(name)) == name {
      RecoveredIsPlain(name);
    }
  }

  lemma PlainNamesDoNotCollide(name: seq<Byte>, other: seq<Byte>)
    requires Recoverable(name) && Recoverable(other) && ConditionType(name) == ConditionType(other)
    ensures name == other
  {
    RecoveredIff(name);
    RecoveredIff(other);
  }

  /** In particular on canonical names. */
  lemma CanonicalNameRecovered(name: seq<Byte>)
    requires Canonical(name)
    ensures NameOf(ConditionType(name)) == name
  {
    forall i | 0 <= i < |Split(name, HYPHEN)| ensures PlainPart(Split(name, HYPHEN)[i]) {
      assert CanonicalPart(Split(name, HYPHEN)[i]);
    }
    RecoveredIff(name);
  }

  /** So two canonical adapters never share a condition type. */
  lemma CanonicalNamesDoNotCollide(name: seq<Byte>, other: seq<Byte>)
    requires Canonical(name) && Canonical(other) && ConditionType(name) == ConditionType(other)
    ensures name == other
  {
    CanonicalNameRecovered(name);
    CanonicalNameRecovered(other);
  }

  function NonEmpty(parts: seq<seq<Byte>>): seq<seq<Byte>> {
    if parts == [] then [] else (if parts[0] == [] then [] else [parts[0]]) + NonEmpty(parts[1..])
  }

  lemma {:induction false} EmptyPartsAddNothing(parts: seq<seq<Byte>>)
    ensures Capitalized(NonEmpty(parts)) == Capitalized(parts)
  {
    if parts != [] {
      EmptyPartsAddNothing(parts[1..]);
      if parts[0] == [] {
        assert NonEmpty(parts) == NonEmpty(parts[1..]);
      } else {
        assert NonEmpty(parts)[1..] == NonEmpty(parts[1..]);
      }
    }
  }

  /** Hyphens that only add empty segments do not change the result. */
  lemma EmptySegmentsIgnored(name: seq<Byte>, other: seq<Byte>)
    requires NonEmpty(Split(name, HYPHEN)) == NonEmpty(Split(other, HYPHEN))
    ensures ConditionType(name) == ConditionType(other)
  {
    EmptyPartsAddNothing(Split(name, HYPHEN));
    EmptyPartsAddNothing(Split(other, HYPHEN));
  }

  // ---------------------------------------------------------------- names that share a condition type

  /** A name without segments, or whose first one starts with a letter of either case. */
  predicate StartsWithLetter(name: seq<Byte>) {
    var parts := NonEmpty(Split(name, HYPHEN));
    parts != [] ==> parts[0] != [] && (IsLower(parts[0][0]) || IsUpper(parts[0][0]))
  }

  lemma {:induction false} NonEmptyParts(parts: seq<seq<Byte>>)
    ensures forall i :: 0 <= i < |NonEmpty(parts)| ==> NonEmpty(parts)[i] != []
  {
    if parts != [] { NonEmptyParts(parts[1..]); }
  }

  /** A condition type's body begins with a capital, or is empty, exactly when its name starts with a letter. */
  lemma CapitalFirstIff(name: seq<Byte>)
    ensures var body := Capitalized(Split(name, HYPHEN));
            StartsWithLetter(name) <==> body == [] || IsUpper(body[0])
  {
    var parts := NonEmpty(Split(name, HYPHEN));
    EmptyPartsAddNothing(Split(name, HYPHEN));
    NonEmptyParts(Split(name, HYPHEN));
    if parts != [] {
      assert Capitalized(parts) == Capitalize(parts[0]) + Capitalized(parts[1..]);
      assert Capitalize(parts[0])[0] == Upper(parts[0][0])[0];
    }
  }

  /** Capitalizing the pieces again gives back what was cut. */
  lemma {:induction false} PiecesRejoin(s: seq<Byte>)
    requires NoHyphen(s)
    ensures Pieces(s)[0] + Capitalized(Pieces(s)[1..]) == s
  {
    if s != [] {
      var rest := Pieces(s[1..]);
      PiecesRejoin(s[1..]);
      assert [s[0]] + s[1..] == s;
      if IsUpper(s[0]) {
        PieceRecapitalized(s[0], rest[0], rest[1..]);
        assert Pieces(s)[1..] == [[s[0] + 32] + rest[0]] + rest[1..];
      } else {
        assert Pieces(s)[0] == [s[0]] + rest[0] && Pieces(s)[1..] == rest[1..];
        Regroup([s[0]], rest[0], Capitalized(rest[1..]));
      }
    }
  }

  lemma PieceRecapitalized(capital: Byte, first: seq<Byte>, parts: seq<seq<Byte>>)
    requires IsUpper(capital)
    ensures Capitalized([[capital + 32] + first] + parts) == [capital] + (first + Capitalized(parts))
  {
    var part: seq<Byte> := [capital + 32] + first;
    assert part[1..] == first && Capitalize(part) == [capital] + first;
    assert ([part] + parts)[1..] == parts;
    Regroup([capital], first, Capitalized(parts));
  }

  /** What the decoder gives for a name that starts with a letter is a recoverable name with the same type. */
  lemma DecodedTwin(name: seq<Byte>)
    requires StartsWithLetter(name)
    ensures var twin := NameOf(ConditionType(name)); Recoverable(twin) && ConditionType(twin) == ConditionType(name)
  {
    var body := Capitalized(Split(name, HYPHEN));
    var pieces := Pieces(body);
    CapitalFirstIff(name);
    NameOfConditionType(name);
    PiecesOfName(name);
    BodyHasNoHyphen(name);
    PiecesRejoin(body);
    if body == [] {
      EmptyType();
    } else {
      assert pieces[0] == [];
      var parts := pieces[1..];
      assert Capitalized([]) == [];
      assert parts != [];
      forall i | 0 <= i < |parts| ensures NoHyphen(parts[i]) && PlainPart(parts[i]) {
        assert parts[i] == pieces[i + 1];
      }
      PlainJoin(parts);
      assert [] + Capitalized(parts) == Capitalized(parts);
    }
  }

  lemma EmptyType()
    ensures ConditionType([]) == [] + SUFFIX && Capitalized(Split([], HYPHEN)) == []
  {
    assert Capitalized([[]]) == Capitalize([]) + Capitalized([[]][1..]);
  }

  lemma PlainJoin(parts: seq<seq<Byte>>)
    requires parts != [] && forall i :: 0 <= i < |parts| ==> NoHyphen(parts[i]) && PlainPart(parts[i])
    ensures Plain(Join(parts, HYPHEN)) && Split(Join(parts, HYPHEN), HYPHEN) == parts
  {
    forall p | p in parts ensures HYPHEN !in p {
      var i :| 0 <= i < |parts| && parts[i] == p;
    }
    SplitJoin(parts, HYPHEN);
  }

  lemma BodyHasNoHyphen(name: seq<Byte>)
    ensures NoHyphen(Capitalized(Split(name, HYPHEN)))
  {
    var parts := Split(name, HYPHEN);
    forall i | 0 <= i < |parts| ensures NoHyphen(parts[i]) {
      assert parts[i] in parts;
    }
    CapitalizedHasNoHyphen(parts);
  }

  lemma RecoverableStartsWithLetter(name: seq<Byte>)
    requires Recoverable(name)
    ensures StartsWithLetter(name)
  {
    var parts := Split(name, HYPHEN);
    CapitalFirstIff(name);
    if name == [] {
      EmptyType();
    } else {
      assert PlainPart(parts[0]);
      assert Capitalized(parts) == Capitalize(parts[0]) + Capitalized(parts[1..]);
    }
  }

  lemma SameTypeSameBody(name: seq<Byte>, other: seq<Byte>)
    requires ConditionType(name) == ConditionType(other)
    ensures Capitalized(Split(name, HYPHEN)) == Capitalized(Split(other, HYPHEN))
  {
    var a, b := Capitalized(Split(name, HYPHEN)), Capitalized(Split(other, HYPHEN));
    assert a == (a + SUFFIX)[..|a|] && b == (b + SUFFIX)[..|b|];
  }

  /** A name shares its condition type with a recoverable one, which is then the only such and what the decoder gives,
      exactly when it starts with a letter. So it collides with a recoverable name exactly when it starts with a
      letter and is not recoverable itself. */
  lemma SharesTypeIff(name: seq<Byte>)
    ensures (exists twin :: Recoverable(twin) && ConditionType(twin) == ConditionType(name)) <==> StartsWithLetter(name)
    ensures forall twin :: Recoverable(twin) && ConditionType(twin) == ConditionType(name) ==>
              twin == NameOf(ConditionType(name))
  {
    if StartsWithLetter(name) { DecodedTwin(name); }
    forall twin | Recoverable(twin) && ConditionType(twin) == ConditionType(name)
      ensures StartsWithLetter(name) && twin == NameOf(ConditionType(name))
    {
      RecoveredIff(twin);
      RecoverableStartsWithLetter(twin);
      SameTypeSameBody(twin, name);
      CapitalFirstIff(twin);
      CapitalFirstIff(name);
    }
  }

  lemma CollidesIff(name: seq<Byte>)
    ensures (exists twin :: twin != name && Recoverable(twin) && ConditionType(twin) == ConditionType(name))
            <==> StartsWithLetter(name) && !Recoverable(name)
  {
    SharesTypeIff(name);
    if Recoverable(name) { RecoveredIff(name); }
    if StartsWithLetter(name) {
      DecodedTwin(name);
    }
  }

  /** Outside these names distinct adapters can share a condition type: joining two segments and capitalizing by
      hand gives the same as the hyphen does. */
  lemma HandCapitalizedNamesCollide(head: seq<Byte>, initial: Byte, tail: seq<Byte>)
    requires head != [] && HYPHEN !in head && HYPHEN !in tail && IsLower(initial)
    ensures ConditionType(head + [HYPHEN] + ([initial] + tail)) == ConditionType(head + ([initial - 32] + tail))
  {
    HyphenatedType(head, initial, tail);
    JoinedType(head, initial - 32, tail);
  }

  lemma HyphenatedType(head: seq<Byte>, initial: Byte, tail: seq<Byte>)
    requires head != [] && HYPHEN !in head && HYPHEN !in tail && IsLower(initial)
    ensures ConditionType(head + [HYPHEN] + ([initial] + tail)) == Capitalize(head) + ([initial - 32] + tail) + SUFFIX
  {
    var part: seq<Byte> := [initial] + tail;
    var name: seq<Byte> := head + [HYPHEN] + part;
    SplitAt(head, HYPHEN, part);
    SplitWhole(part, HYPHEN);
    assert Split(name, HYPHEN) == [head] + [part];
    CapitalizedAppend([head], [part]);
    CapitalizedOne(head);
    CapitalizedOne(part);
    assert part[1..] == tail;
  }

  lemma JoinedType(head: seq<Byte>, capital: Byte, tail: seq<Byte>)
    requires head != [] && HYPHEN !in head && HYPHEN !in tail && IsUpper(capital)
    ensures ConditionType(head + ([capital] + tail)) == Capitalize(head) + ([capital] + tail) + SUFFIX
  {
    var joined: seq<Byte> := head + ([capital] + tail);
    SplitWhole(joined, HYPHEN);
    CapitalizedOne(joined);
    assert joined[0] == head[0] && joined[1..] == head[1..] + ([capital] + tail);
    Regroup(Upper(head[0]), head[1..], [capital] + tail);
  }
}

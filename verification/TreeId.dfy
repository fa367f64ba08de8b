/**
 Tree ids: a list of arbitrary strings encoded with its lengths in front.
 */
module TreeId {
  import opened Bytes
  import opened Decimal

  // ---------------------------------------------------------------- the text format

  /** `sep.join(parts)` */
  function Join(parts: seq<string>, sep: string): string {
    if parts == [] then [] else if |parts| == 1 then parts[0] else parts[0] + sep + Join(parts[1..], sep)
  }

  /** `s.split(c)` for a one-character separator. */
  function Split(s: string, c: char): (r: seq<string>)
    ensures r != []
  {
    if s == [] then [[]]
    else
      var rest := Split(s[1..], c);
      if s[0] == c then [[]] + rest else [[s[0]] + rest[0]] + rest[1..]
  }

  /** `s.find(c)` */
  function Find(s: string, c: char): (r: int)
    ensures r == -1 || (0 <= r < |s| && s[r] == c)
    ensures c !in s[..if r == -1 then |s| else r]
  {
    if s == [] then -1 else if s[0] == c then 0
    else var r := Find(s[1..], c); if r == -1 then -1 else r + 1
  }

  function Lengths(parts: seq<string>): seq<int> {
    seq(|parts|, i requires 0 <= i < |parts| => |parts[i]|)
  }

  function PrintAll(ns: seq<int>): seq<string> {
    seq(|ns|, i requires 0 <= i < |ns| => PrintInt(ns[i]))
  }

  /** The numbers of the length part; None is the ValueError of `int`. */
  function ParseAll(texts: seq<string>, toInt: IntParser): Option<seq<int>> {
    if texts == [] then Some([])
    else match toInt(texts[0])
      case None => None
      case Some(n) => match ParseAll(texts[1..], toInt) case None => None case Some(ns) => Some([n] + ns)
  }

  function Sum(ns: seq<int>): int {
    if ns == [] then 0 else ns[0] + Sum(ns[1..])
  }

  /** The encoding that `set_parts_inplace` and `from_parts` build from at least one part. */
  function EncodeParts(parts: seq<string>, splitter: string): string {
    Join(PrintAll(Lengths(parts)), ".") + "|" + Join(parts, splitter)
  }

  /** `from_parts` */
  function Encode(parts: seq<string>, splitter: string): string {
    if parts == [] then [] else EncodeParts(parts, splitter)
  }

  /** A bound of a Python slice of `n` characters: negative bounds count from the end. */
  function Bound(i: int, n: nat): (r: nat)
    ensures r <= n
  {
    if i < 0 then (if i + n < 0 then 0 else i + n) else Min(i, n)
  }

  /** The Python slice `text[a:b]`. */
  function PySlice(text: string, a: int, b: int): string {
    if Bound(a, |text|) <= Bound(b, |text|) then text[Bound(a, |text|)..Bound(b, |text|)] else []
  }

  /** The parts of the encoded text, from offset `start` on. */
  function Pieces(text: string, lengths: seq<int>, start: int, splitterLength: nat): seq<string>
    decreases |lengths|
  {
    if lengths == [] then []
    else
      [PySlice(text, start, start + lengths[0])]
      + Pieces(text, lengths[1..], start + lengths[0] + splitterLength, splitterLength)
  }

  /** The lengths and the text behind them; None is an AssertionError or a ValueError. */
  function Header(uid: string, splitterLength: nat, toInt: IntParser): Option<(seq<int>, string)> {
    var bar := Find(uid, '|');
    if bar == -1 then (if uid == [] then Some(([], [])) else None)
    else
      var text := uid[bar + 1..];
      match ParseAll(Split(uid[..bar], '.'), toInt)
      case None => None
      case Some(lengths) =>
        if Sum(lengths) != |text| - splitterLength * (|lengths| - 1) then None else Some((lengths, text))
  }

  /** What the constructor makes of an encoded id. */
  function Decode(uid: string, splitterLength: nat, toInt: IntParser): Option<seq<string>> {
    match Header(uid, splitterLength, toInt)
    case None => None
    case Some((lengths, text)) => Some(Pieces(text, lengths, 0, splitterLength))
  }

  // ---------------------------------------------------------------- decoding undoes encoding

  lemma {:induction false} SplitPlain(s: string, c: char)
    requires c !in s
    ensures Split(s, c) == [s]
  {
    if s != [] {
      SplitPlain(s[1..], c);
      assert [s[0]] + s[1..] == s;
    }
  }

  lemma {:induction false} SplitAt(s: string, c: char, rest: string)
    requires c !in s
    ensures Split(s + [c] + rest, c) == [s] + Split(rest, c)
  {
    var all := s + [c] + rest;
    if s == [] {
      assert all[1..] == rest;
    } else {
      assert all[1..] == s[1..] + [c] + rest;
      SplitAt(s[1..], c, rest);
      assert ([s[1..]] + Split(rest, c))[1..] == Split(rest, c);
      assert [s[0]] + s[1..] == s;
    }
  }

  lemma {:induction false} SplitJoin(parts: seq<string>, c: char)
    requires parts != [] && forall i :: 0 <= i < |parts| ==> c !in parts[i]
    ensures Split(Join(parts, [c]), c) == parts
  {
    if |parts| == 1 {
      SplitPlain(parts[0], c);
    } else {
      var rest := Join(parts[1..], [c]);
      assert Join(parts, [c]) == parts[0] + [c] + rest;
      SplitJoin(parts[1..], c);
      SplitAt(parts[0], c, rest);
      assert [parts[0]] + parts[1..] == parts;
    }
  }

  lemma {:induction false} ParsePrintAll(ns: seq<int>, toInt: IntParser)
    requires ReadsPrinted(toInt)
    ensures ParseAll(PrintAll(ns), toInt) == Some(ns)
  {
    if ns != [] {
      assert toInt(PrintInt(ns[0])) == Some(ns[0]);
      assert PrintAll(ns)[1..] == PrintAll(ns[1..]);
      ParsePrintAll(ns[1..], toInt);
      assert [ns[0]] + ns[1..] == ns;
    }
  }

  /** A join has no character that neither the parts nor the separator have. */
  lemma {:induction false} JoinAvoids(parts: seq<string>, sep: string, c: char)
    requires c !in sep && forall i :: 0 <= i < |parts| ==> c !in parts[i]
    ensures c !in Join(parts, sep)
  {
    if |parts| > 1 { JoinAvoids(parts[1..], sep, c); }
  }

  /** The first bar ends the length part, however many bars the parts contain. */
  lemma {:induction false} FindFirst(s: string, c: char, rest: string)
    requires c !in s
    ensures Find(s + [c] + rest, c) == |s|
  {
    if s != [] {
      assert (s + [c] + rest)[1..] == s[1..] + [c] + rest;
      FindFirst(s[1..], c, rest);
    }
  }

  lemma {:induction false} JoinLength(parts: seq<string>, sep: string)
    requires parts != []
    ensures |Join(parts, sep)| == Sum(Lengths(parts)) + |sep| * (|parts| - 1)
  {
    assert Lengths(parts)[1..] == Lengths(parts[1..]);
    if |parts| > 1 {
      JoinLength(parts[1..], sep);
      assert |sep| * (|parts| - 1) == |sep| * (|parts| - 2) + |sep|;
    } else {
      assert Lengths(parts) == [|parts[0]|];
    }
  }

  lemma {:induction false} PiecesOfJoin(text: string, before: string, parts: seq<string>, sep: string)
    requires parts != [] && text == before + Join(parts, sep)
    ensures Pieces(text, Lengths(parts), |before|, |sep|) == parts
    decreases |parts|
  {
    PiecesHead(text, Lengths(parts), |before|, |sep|);
    assert Lengths(parts)[1..] == Lengths(parts[1..]);
    FirstPiece(text, before, parts, sep);
    HeadAndTail(parts);
    if |parts| > 1 {
      JoinBehind(before, parts, sep);
      PiecesOfJoin(text, before + parts[0] + sep, parts[1..], sep);
    }
  }

  lemma FirstPiece(text: string, before: string, parts: seq<string>, sep: string)
    requires parts != [] && text == before + Join(parts, sep)
    ensures PySlice(text, |before|, |before| + |parts[0]|) == parts[0]
  {
    JoinStarts(parts, sep);
    SliceBehind(before, Join(parts, sep), parts[0]);
    PieceInside(text, |before|, |parts[0]|);
  }

  lemma JoinStarts(parts: seq<string>, sep: string)
    requires parts != []
    ensures parts[0] <= Join(parts, sep)
  {
    if |parts| > 1 { Assoc(parts[0], sep, Join(parts[1..], sep)); }
  }

  lemma SliceBehind(before: string, text: string, part: string)
    requires part <= text
    ensures (before + text)[|before|..|before| + |part|] == part
  {
    assert (before + text)[|before|..] == text;
  }

  lemma JoinBehind(before: string, parts: seq<string>, sep: string)
    requires |parts| > 1
    ensures before + Join(parts, sep) == before + parts[0] + sep + Join(parts[1..], sep)
  {
  }

  /** The length part: digits and dots, so no bar, and it parses back to the lengths. */
  lemma LengthPart(parts: seq<string>, toInt: IntParser)
    requires parts != [] && ReadsPrinted(toInt)
    ensures var text := Join(PrintAll(Lengths(parts)), ".");
      '|' !in text && ParseAll(Split(text, '.'), toInt) == Some(Lengths(parts))
  {
    var texts := PrintAll(Lengths(parts));
    forall i | 0 <= i < |texts| ensures '|' !in texts[i] && '.' !in texts[i] { assert texts[i] == Print(|parts[i]|); }
    JoinAvoids(texts, ".", '|');
    SplitJoin(texts, '.');
    ParsePrintAll(Lengths(parts), toInt);
  }

  /** The length part and the text behind it can be told apart. */
  lemma SplitEncoding(parts: seq<string>, splitter: string)
    requires parts != []
    ensures var uid, lengthPart := EncodeParts(parts, splitter), Join(PrintAll(Lengths(parts)), ".");
      Find(uid, '|') == |lengthPart| && uid[..|lengthPart|] == lengthPart && uid[|lengthPart| + 1..]
          == Join(parts, splitter)
  {
    ParseIntReadsPrinted();
    LengthPart(parts, ParseInt);
    FindFirst(Join(PrintAll(Lengths(parts)), "."), '|', Join(parts, splitter));
  }

  /** They are read back, whatever the splitter length is taken to be; the check of the lengths depends
      on it. */
  lemma HeaderOfEncoding(parts: seq<string>, splitter: string, n: nat, toInt: IntParser)
    requires parts != [] && ReadsPrinted(toInt)
    ensures var text := Join(parts, splitter);
      Header(EncodeParts(parts, splitter), n, toInt) ==
        if Sum(Lengths(parts)) != |text| - n * (|parts| - 1) then None else Some((Lengths(parts), text))
  {
    SplitEncoding(parts, splitter);
    LengthPart(parts, toInt);
    HeaderIs(EncodeParts(parts, splitter), n, toInt, Lengths(parts));
  }

  lemma HeaderIs(uid: string, n: nat, toInt: IntParser, lengths: seq<int>)
    requires Find(uid, '|') != -1 && ParseAll(Split(uid[..Find(uid, '|')], '.'), toInt) == Some(lengths)
    ensures var text := uid[Find(uid, '|') + 1..];
      Header(uid, n, toInt) == if Sum(lengths) != |text| - n * (|lengths| - 1) then None else Some((lengths, text))
  {
  }

  lemma DecodeEncodeParts(parts: seq<string>, splitter: string, toInt: IntParser)
    requires parts != [] && ReadsPrinted(toInt)
    ensures Decode(EncodeParts(parts, splitter), |splitter|, toInt) == Some(parts)
  {
    HeaderOfEncoding(parts, splitter, |splitter|, toInt);
    JoinLength(parts, splitter);
    EmptyPrefix(Join(parts, splitter));
    PiecesOfJoin(Join(parts, splitter), [], parts, splitter);
  }

  /** Any list of strings survives: empty ones, and ones with bars, dots, digits or the splitter. */
  lemma DecodeEncode(parts: seq<string>, splitter: string, toInt: IntParser)
    requires ReadsPrinted(toInt)
    ensures Decode(Encode(parts, splitter), |splitter|, toInt) == Some(parts)
  {
    if parts != [] { DecodeEncodeParts(parts, splitter, toInt); }
  }

  // ---------------------------------------------------------------- what can be decoded

  /** `text` is the parts one behind the other, with any `n` characters between two of them. */
  predicate Separates(text: string, parts: seq<string>, n: nat)
    requires parts != []
  {
    if |parts| == 1 then text == parts[0]
    else
      && parts[0] <= text && |parts[0]| + n <= |text|
      && Separates(text[|parts[0]| + n..], parts[1..], n)
  }

  lemma SeparatorsTogether(n: nat, k: nat)
    ensures n * k == Offset(n, k)
  {
    OffsetIsProduct(n, k);
  }

  predicate NoneNegative(ns: seq<int>) {
    forall i :: 0 <= i < |ns| ==> ns[i] >= 0
  }

  lemma {:induction false} SeparatedLength(text: string, parts: seq<string>, n: nat)
    requires parts != [] && Separates(text, parts, n)
    ensures |text| == Sum(Lengths(parts)) + Offset(n, |parts| - 1)
    decreases |parts|
  {
    assert Lengths(parts)[1..] == Lengths(parts[1..]);
    if |parts| > 1 {
      SeparatedLength(text[|parts[0]| + n..], parts[1..], n);
    } else {
      assert Lengths(parts) == [|parts[0]|];
    }
  }

  lemma {:induction false} SumNotNegative(ns: seq<int>)
    requires NoneNegative(ns)
    ensures Sum(ns) >= 0
  {
    if ns != [] { SumNotNegative(ns[1..]); }
  }

  /** Cutting a text of the right length gives parts of the lengths asked for, which it separates. */
  lemma {:induction false} PiecesSeparate(text: string, lengths: seq<int>, start: nat, n: nat)
    requires lengths != [] && NoneNegative(lengths) && start <= |text|
    requires |text| - start == Sum(lengths) + Offset(n, |lengths| - 1)
    ensures var parts := Pieces(text, lengths, start, n);
      parts != [] && Lengths(parts) == lengths && Separates(text[start..], parts, n)
    decreases |lengths|
  {
    SumNotNegative(lengths[1..]);
    if |lengths| == 1 {
      assert lengths == [lengths[0]];
      LastPieceSeparates(text, lengths[0], start, n);
    } else {
      PiecesSeparate(text, lengths[1..], start + lengths[0] + n, n);
      PiecesStep(text, lengths, start, n, Pieces(text, lengths[1..], start + lengths[0] + n, n));
    }
  }

  lemma LastPieceSeparates(text: string, len: nat, start: nat, n: nat)
    requires start + len == |text|
    ensures Pieces(text, [len], start, n) == [text[start..]] && Lengths([text[start..]]) == [len]
    ensures Separates(text[start..], [text[start..]], n)
  {
    PieceInside(text, start, len);
    assert text[start..start + len] == text[start..];
    assert [len][1..] == [];
  }

  lemma PiecesStep(text: string, lengths: seq<int>, start: nat, n: nat, rest: seq<string>)
    requires lengths != [] && lengths[0] >= 0 && start + lengths[0] + n <= |text|
    requires rest != [] && rest == Pieces(text, lengths[1..], start + lengths[0] + n, n)
    requires Lengths(rest) == lengths[1..] && Separates(text[start + lengths[0] + n..], rest, n)
    ensures var parts := Pieces(text, lengths, start, n);
      parts != [] && Lengths(parts) == lengths && Separates(text[start..], parts, n)
  {
    PiecesHead(text, lengths, start, n);
    PieceInside(text, start, lengths[0]);
    DropDrop(text, start, lengths[0] + n);
    ConsSeparates(text[start..], text[start..start + lengths[0]], rest, n);
    HeadAndTail(lengths);
  }

  lemma PiecesHead(text: string, lengths: seq<int>, start: int, n: nat)
    requires lengths != []
    ensures Pieces(text, lengths, start, n)
      == [PySlice(text, start, start + lengths[0])] + Pieces(text, lengths[1..], start + lengths[0] + n, n)
  {
  }

  lemma HeadAndTail<T>(s: seq<T>)
    requires s != []
    ensures [s[0]] + s[1..] == s
  {
  }

  lemma PieceInside(text: string, start: nat, len: nat)
    requires start + len <= |text|
    ensures PySlice(text, start, start + len) == text[start..start + len] <= text[start..]
  {
  }

  lemma ConsSeparates(text: string, part: string, rest: seq<string>, n: nat)
    requires rest != [] && part <= text && |part| + n <= |text| && Separates(text[|part| + n..], rest, n)
    ensures Separates(text, [part] + rest, n) && Lengths([part] + rest) == [|part|] + Lengths(rest)
  {
    assert ([part] + rest)[1..] == rest;
  }

  /** A text separates only one list of parts with given lengths. */
  lemma {:induction false} SeparatesOnce(text: string, ps: seq<string>, qs: seq<string>, n: nat)
    requires ps != [] && qs != [] && Lengths(ps) == Lengths(qs)
    requires Separates(text, ps, n) && Separates(text, qs, n)
    ensures ps == qs
    decreases |ps|
  {
    assert |ps| == |Lengths(ps)| == |Lengths(qs)| == |qs|;
    assert |ps[0]| == Lengths(ps)[0] == Lengths(qs)[0] == |qs[0]|;
    assert ps == [ps[0]] + ps[1..] && qs == [qs[0]] + qs[1..];
    if |ps| > 1 {
      assert Lengths(ps)[1..] == Lengths(ps[1..]) && Lengths(qs)[1..] == Lengths(qs[1..]);
      assert ps[0] == text[..|ps[0]|] && qs[0] == text[..|qs[0]|];
      SeparatesOnce(text[|ps[0]| + n..], ps[1..], qs[1..], n);
    }
  }

  /** The text of an id with these parts: their lengths in front of the first bar, in any form that `int`
      reads, and behind it the parts, with any separators of length `n`. */
  predicate IsIdOf(uid: string, parts: seq<string>, n: nat, toInt: IntParser, bar: nat)
    requires parts != []
  {
    && bar < |uid| && uid[bar] == '|' && '|' !in uid[..bar]
    && ParseAll(Split(uid[..bar], '.'), toInt) == Some(Lengths(parts))
    && Separates(uid[bar + 1..], parts, n)
  }

  lemma FirstBar(uid: string, bar: nat)
    requires bar < |uid| && uid[bar] == '|' && '|' !in uid[..bar]
    ensures Find(uid, '|') == bar
  {
    assert uid == uid[..bar] + ['|'] + uid[bar + 1..];
    FindFirst(uid[..bar], '|', uid[bar + 1..]);
  }

  lemma {:induction false} ParsedNotEmpty(texts: seq<string>, toInt: IntParser)
    requires texts != [] && ParseAll(texts, toInt).Some?
    ensures ParseAll(texts, toInt).value != []
  {
  }

  /** The texts that decode to given parts: for every text whose length part holds no negative number, the
      parts are decoded if and only if the text is one of theirs; the empty text has no parts. */
  lemma DecodeIff(uid: string, parts: seq<string>, n: nat, toInt: IntParser)
    requires Header(uid, n, toInt).Some? ==> NoneNegative(Header(uid, n, toInt).value.0)
    ensures Decode(uid, n, toInt) == Some(parts) <==>
      if parts == [] then uid == [] else exists bar: nat :: IsIdOf(uid, parts, n, toInt, bar)
  {
    if uid != [] && Header(uid, n, toInt).Some? {
      var (lengths, text) := Header(uid, n, toInt).value;
      var bar := Find(uid, '|');
      ParsedNotEmpty(Split(uid[..bar], '.'), toInt);
      SeparatorsTogether(n, |lengths| - 1);
      PiecesSeparate(text, lengths, 0, n);
      assert text[0..] == text;
      var pieces := Pieces(text, lengths, 0, n);
      assert IsIdOf(uid, pieces, n, toInt, bar);
    }
    if parts != [] {
      forall bar: nat | IsIdOf(uid, parts, n, toInt, bar) ensures Decode(uid, n, toInt) == Some(parts) {
        IdDecodes(uid, parts, n, toInt, bar);
      }
    }
  }

  lemma IdDecodes(uid: string, parts: seq<string>, n: nat, toInt: IntParser, bar: nat)
    requires parts != [] && IsIdOf(uid, parts, n, toInt, bar)
    ensures Decode(uid, n, toInt) == Some(parts)
  {
    var text := uid[bar + 1..];
    FirstBar(uid, bar);
    SeparatedLength(text, parts, n);
    SeparatorsTogether(n, |parts| - 1);
    assert |Lengths(parts)| == |parts|;
    PiecesSeparate(text, Lengths(parts), 0, n);
    assert text[0..] == text;
    SeparatesOnce(text, Pieces(text, Lengths(parts), 0, n), parts, n);
  }

  lemma OtherSplitterLength(a: nat, b: nat, n: nat)
    requires n > 0 && a != b
    ensures a * n != b * n
  {
    if a < b { MulMono(a + 1, b, n); } else { MulMono(b + 1, a, n); }
  }

  /** Decoding with another splitter length than the splitter's: it works exactly for at most one part. */
  lemma DecodeEncodeIff(parts: seq<string>, splitter: string, n: nat, toInt: IntParser)
    requires ReadsPrinted(toInt)
    ensures Decode(Encode(parts, splitter), n, toInt) == Some(parts) <==> |parts| <= 1 || n == |splitter|
    ensures |parts| > 1 && n != |splitter| ==> Decode(Encode(parts, splitter), n, toInt).None?
  {
    DecodeEncode(parts, splitter, toInt);
    if parts != [] {
      HeaderOfEncoding(parts, splitter, n, toInt);
      JoinLength(parts, splitter);
      if |parts| == 1 {
        OnePiece(parts, n);
      } else if n != |splitter| {
        OtherSplitterLength(n, |splitter|, |parts| - 1);
      }
    }
  }

  lemma OnePiece(parts: seq<string>, n: nat)
    requires |parts| == 1
    ensures Pieces(parts[0], Lengths(parts), 0, n) == parts
  {
    assert Lengths(parts)[1..] == [];
    assert PySlice(parts[0], 0, |parts[0]|) == parts[0];
  }

  /** For a fixed splitter two ids are equal exactly when their parts are. */
  lemma EncodeInjective(ps: seq<string>, qs: seq<string>, splitter: string)
    ensures Encode(ps, splitter) == Encode(qs, splitter) <==> ps == qs
  {
    ParseIntReadsPrinted();
    var toInt := ParseInt;
    DecodeEncode(ps, splitter, toInt);
    DecodeEncode(qs, splitter, toInt);
  }

  /** Equal texts have equal lengths and equal joined parts. */
  lemma SameHeader(ps: seq<string>, s: string, qs: seq<string>, t: string)
    requires ps != [] && qs != [] && EncodeParts(ps, s) == EncodeParts(qs, t)
    ensures Lengths(ps) == Lengths(qs) && Join(ps, s) == Join(qs, t)
  {
    ParseIntReadsPrinted();
    var toInt := ParseInt;
    SplitEncoding(ps, s);
    SplitEncoding(qs, t);
    LengthPart(ps, toInt);
    LengthPart(qs, toInt);
  }

  lemma SameSplitterLength(a: nat, b: nat, n: nat)
    requires n > 0 && a * n == b * n
    ensures a == b
  {
    if a < b { MulMono(a + 1, b, n); }
    if b < a { MulMono(b + 1, a, n); }
  }

  /** Ids built with any two splitters: the texts are equal exactly when the parts are and, if there are
      at least two of them, the splitters are. */
  lemma EncodeEqualIff(ps: seq<string>, s: string, qs: seq<string>, t: string)
    ensures Encode(ps, s) == Encode(qs, t) <==> ps == qs && (|ps| <= 1 || s == t)
  {
    if Encode(ps, s) == Encode(qs, t) && ps != [] && qs != [] {
      SameHeader(ps, s, qs, t);
      JoinLength(ps, s);
      JoinLength(qs, t);
      assert |Lengths(ps)| == |ps| && |Lengths(qs)| == |qs|;
      if |ps| == 1 {
        assert Join(ps, s) == ps[0] && Join(qs, t) == qs[0];
      } else {
        SameSplitterLength(|s|, |t|, |ps| - 1);
        EmptyPrefix(Join(ps, s));
        PiecesOfJoin(Join(ps, s), [], ps, s);
        PiecesOfJoin(Join(qs, t), [], qs, t);
        SplitterInJoin(ps, s);
        SplitterInJoin(qs, t);
      }
    }
  }

  lemma SplitterInJoin(parts: seq<string>, sep: string)
    requires |parts| > 1
    ensures |parts[0]| + |sep| <= |Join(parts, sep)|
    ensures Join(parts, sep)[|parts[0]|..|parts[0]| + |sep|] == sep
  {
    assert Join(parts, sep) == parts[0] + sep + Join(parts[1..], sep);
  }

  lemma EmptyPartsFail(splitter: string, n: nat, toInt: IntParser)
    requires toInt("").None?
    ensures Decode(EncodeParts([], splitter), n, toInt).None?
  {
    var uid := EncodeParts([], splitter);
    assert PrintAll(Lengths([])) == [];
    assert uid == "|" && uid[..0] == [];
    assert Find(uid, '|') == 0;
    assert Split([], '.') == [[]];
  }

  /** What `set_parts_inplace` leaves behind can be read again exactly when there is a part: `int`
      refuses the empty string, and unlike `from_parts` there is no case for the empty list. */
  lemma InplaceDecodesIff(parts: seq<string>, splitter: string, toInt: IntParser)
    requires ReadsPrinted(toInt) && toInt("").None?
    ensures Decode(EncodeParts(parts, splitter), |splitter|, toInt) == Some(parts) <==> parts != []
  {
    if parts != [] {
      DecodeEncodeParts(parts, splitter, toInt);
    } else {
      EmptyPartsFail(splitter, |splitter|, toInt);
    }
  }

  /** An id whose parts were set in place with some splitter can be copied, with the same parts, exactly
      when there is one part, or there are several and the splitter is as long as the id's own. */
  lemma InplaceCopiesIff(parts: seq<string>, splitter: string, splitterLength: nat, toInt: IntParser)
    requires ReadsPrinted(toInt) && toInt("").None?
    ensures Decode(EncodeParts(parts, splitter), splitterLength, toInt) == Some(parts)
      <==> |parts| == 1 || (parts != [] && splitterLength == |splitter|)
  {
    if parts != [] {
      DecodeEncodeIff(parts, splitter, splitterLength, toInt);
    } else {
      EmptyPartsFail(splitter, splitterLength, toInt);
    }
  }

  predicate IsCommonPrefix(p: seq<string>, a: seq<string>, b: seq<string>) {
    p <= a && p <= b
  }

  lemma NoLongerPrefix(a: seq<string>, b: seq<string>, i: nat, p: seq<string>)
    requires i <= |a| && i <= |b| && a[..i] == b[..i] && (i == |a| || i == |b| || a[i] != b[i])
    requires IsCommonPrefix(p, a, b)
    ensures |p| <= i
  {
    assert p == a[..|p|] && p == b[..|p|];
  }

  // ---------------------------------------------------------------- the class

  class UniqueTreeId {
    var uidEncoded: string
    var parts: seq<string>
    const splitterLength: nat
    const toInt: IntParser

    constructor Raw(uid: string, parts: seq<string>, splitterLength: nat, toInt: IntParser)
      ensures uidEncoded == uid && this.parts == parts && this.splitterLength == splitterLength && this.toInt == toInt
    {
      uidEncoded, this.parts, this.splitterLength, this.toInt := uid, parts, splitterLength, toInt;
    }

    /** The id is one that `from_parts` builds with this splitter. */
    ghost predicate EncodedWith(splitter: string)
      reads this
    {
      splitterLength == |splitter| && uidEncoded == Encode(parts, splitter)
    }

    /** `__init__`; None is an exception. */
    static method New(uid: string, splitterLength: nat := 1, toInt: IntParser) returns (r: Option<UniqueTreeId>)
      ensures r.Some? <==> Decode(uid, splitterLength, toInt).Some?
      ensures r.Some? ==>
        && fresh(r.value) && r.value.uidEncoded == uid
        && r.value.splitterLength == splitterLength && r.value.toInt == toInt
        && Decode(uid, splitterLength, toInt) == Some(r.value.parts)
    {
      var header := Header(uid, splitterLength, toInt);
      if header.None? { return None; }
      var (lengths, text) := header.value;
      var parts := CutText(text, lengths, splitterLength);
      var id := new UniqueTreeId.Raw(uid, parts, splitterLength, toInt);
      r := Some(id);
    }

    /** The loop that cuts the text at the lengths. */
    static method CutText(text: string, lengths: seq<int>, splitterLength: nat) returns (parts: seq<string>)
      ensures parts == Pieces(text, lengths, 0, splitterLength)
    {
      var start := 0;
      parts := [];
      for i := 0 to |lengths|
        invariant Pieces(text, lengths, 0, splitterLength) == parts + Pieces(text, lengths[i..], start, splitterLength)
      {
        assert lengths[i..][1..] == lengths[i + 1..];
        var piece := PySlice(text, start, start + lengths[i]);
        start := start + lengths[i] + splitterLength;
        Assoc(parts, [piece], Pieces(text, lengths[i + 1..], start, splitterLength));
        parts := parts + [piece];
      }
      EmptySuffix(parts);
    }

    /** `from_parts`: building an id never fails. */
    static method FromParts(parts: seq<string>, splitter: string := ".", toInt: IntParser) returns (r: UniqueTreeId)
      requires ReadsPrinted(toInt)
      ensures fresh(r) && r.parts == parts && r.EncodedWith(splitter) && r.toInt == toInt
    {
      DecodeEncode(parts, splitter, toInt);
      var id := New(Encode(parts, splitter), |splitter|, toInt);
      r := id.value;
    }

    method SetPartsInplace(parts: seq<string>, splitter: string := ".")
      modifies this
      ensures this.parts == parts && uidEncoded == EncodeParts(parts, splitter)
    {
      this.parts := parts;
      uidEncoded := EncodeParts(parts, splitter);
    }

    /** `copy` decodes the text again, with the splitter length the id was made with. */
    method Copy() returns (r: Option<UniqueTreeId>)
      ensures r.Some? <==> Decode(uidEncoded, splitterLength, toInt).Some?
      ensures r.Some? ==> fresh(r.value) && r.value.uidEncoded == uidEncoded && r.value.splitterLength == splitterLength
      ensures r.Some? ==> Decode(uidEncoded, splitterLength, toInt) == Some(r.value.parts)
    {
      r := New(uidEncoded, splitterLength, toInt);
    }

    /** `validate` on a string, with the default splitter length. */
    static method Validate(uid: string, toInt: IntParser) returns (r: Option<UniqueTreeId>)
      ensures r.Some? <==> Decode(uid, 1, toInt).Some?
      ensures r.Some? ==> fresh(r.value) && r.value.uidEncoded == uid && Decode(uid, 1, toInt) == Some(r.value.parts)
    {
      r := New(uid, 1, toInt);
    }

    method AppendPart(part: string, splitter: string := ".") returns (r: UniqueTreeId)
      requires ReadsPrinted(toInt)
      ensures fresh(r) && r.parts == parts + [part] && r.EncodedWith(splitter)
    {
      r := FromParts(parts + [part], splitter, toInt);
    }

    /** `pop`; `parts[:-1]` of an empty list is empty. */
    method Pop() returns (r: UniqueTreeId)
      requires ReadsPrinted(toInt)
      ensures fresh(r) && r.parts == (if parts == [] then [] else parts[..|parts| - 1]) && r.EncodedWith(".")
    {
      r := FromParts(if parts == [] then [] else parts[..|parts| - 1], ".", toInt);
    }

    /** `startswith` compares parts, not text. */
    method StartsWith(other: UniqueTreeId) returns (b: bool)
      ensures b <==> other.parts <= parts
    {
      if |parts| < |other.parts| { return false; }
      for i := 0 to |other.parts|
        invariant other.parts[..i] == parts[..i]
      {
        if parts[i] != other.parts[i] { return false; }
      }
      b := true;
    }

    /** `common_prefix`: the longest list of parts that both ids start with. */
    method CommonPrefix(other: UniqueTreeId) returns (r: UniqueTreeId)
      requires ReadsPrinted(toInt)
      ensures fresh(r) && r.EncodedWith(".")
      ensures IsCommonPrefix(r.parts, parts, other.parts)
      ensures forall p :: IsCommonPrefix(p, parts, other.parts) ==> |p| <= |r.parts|
    {
      var i := 0;
      while i < |parts| && i < |other.parts| && parts[i] == other.parts[i]
        invariant i <= |parts| && i <= |other.parts| && parts[..i] == other.parts[..i]
      {
        i := i + 1;
      }
      ghost var mine, theirs := parts, other.parts;
      r := FromParts(parts[..i], ".", toInt);
      forall p | IsCommonPrefix(p, mine, theirs) ensures |p| <= |r.parts| {
        NoLongerPrefix(mine, theirs, i, p);
      }
    }

    /** `__eq__` compares the encoded text: of ids with two or more parts it compares the splitters too. */
    method Equals(other: UniqueTreeId, ghost mine: string, ghost theirs: string) returns (b: bool)
      requires EncodedWith(mine) && other.EncodedWith(theirs)
      ensures b <==> parts == other.parts && (|parts| <= 1 || mine == theirs)
    {
      EncodeEqualIff(parts, mine, other.parts, theirs);
      b := uidEncoded == other.uidEncoded;
    }
  }
}

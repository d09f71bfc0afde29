/**
 * The formats themselves, as a grammar: a subset of the conversion specifications of section 7.21.6.1
 * of ISO/IEC 9899:2011. It says what arguments a format takes without scanning anything, from letter
 * tables of its own.
 */
module BinlogGrammar {
  import opened BinlogFormat
  import opened Windows

  datatype Width = Field(digits: string) | StarField
  datatype Precision = NoPrecision | Point(digits: string) | PointStar
  datatype Piece =
    | Text(c: char)
    | Conv(flags: string, width: Width, precision: Precision, mods: string, conv: char)

  const FlagLetters := "-+ #0"
  const DigitLetters := "0123456789"
  const ModifierLetters := "hlL"
  const IntegerLetters := "diouxXc"
  const DoubleLetters := "feEgG"
  const ConversionLetters := "diouxXcfeEgGsp%"

  ghost predicate Only(s: string, letters: string) { forall i :: 0 <= i < |s| ==> s[i] in letters }

  /** A zero at the head of a width counts as a flag. */
  ghost predicate WellFormed(x: Piece) {
    match x
    case Text(c) => c != '%'
    case Conv(flags, width, precision, mods, conv) =>
      Only(flags, FlagLetters) && Only(mods, ModifierLetters) && conv in ConversionLetters
      && (width.Field? ==> Only(width.digits, DigitLetters) && (width.digits != [] ==> width.digits[0] != '0'))
      && (precision.Point? ==> Only(precision.digits, DigitLetters))
  }

  /** What the writer reads correctly; the parser reads everything. */
  predicate Readable(x: Piece, who: Scanner) {
    who == Writer && x.Conv? ==> !x.precision.PointStar? && x.conv != '%'
  }

  ghost predicate Fit(x: Piece, who: Scanner) {
    var a := WellFormed(x);
    var b := Readable(x, who);
    a && b
  }

  ghost predicate Legal(ps: seq<Piece>, who: Scanner) {
    ps != [] ==> Fit(ps[0], who) && Legal(ps[1..], who)
  }

  function OfWidth(w: Width): (s: string) { if w.StarField? then "*" else w.digits }

  function OfPrecision(p: Precision): (s: string) {
    match p
    case NoPrecision => ""
    case Point(d) => "." + d
    case PointStar => ".*"
  }

  function OfPiece(x: Piece): (s: string)
    ensures s != ""
  {
    match x
    case Text(c) => [c]
    case Conv(flags, width, precision, mods, conv) =>
      "%" + (flags + (OfWidth(width) + (OfPrecision(precision) + (mods + [conv]))))
  }

  function Render(ps: seq<Piece>): (s: string) {
    if ps == [] then "" else OfPiece(ps[0]) + Render(ps[1..])
  }

  /** An integer is stored as a long when it is qualified by `l` or `L` and not by `h`. */
  function KindOf(mods: string, conv: char): (k: seq<Kind>) {
    if conv in IntegerLetters then
      (if 'h' in mods || ('l' !in mods && 'L' !in mods) then [KInt] else [KLong])
    else if conv in DoubleLetters then [KDouble]
    else if conv == 's' then [KString]
    else if conv == 'p' then [KPointer]
    else []
  }

  function KindsOfPiece(x: Piece): (k: seq<Kind>) {
    match x
    case Text(_) => []
    case Conv(_, width, precision, mods, conv) =>
      (if width.StarField? then [KInt] else []) + (if precision.PointStar? then [KInt] else []) + KindOf(mods, conv)
  }

  function Kinds(ps: seq<Piece>): (k: seq<Kind>) {
    if ps == [] then [] else KindsOfPiece(ps[0]) + Kinds(ps[1..])
  }

  // ---- The scanners' tables are the grammar's ----

  lemma ClassTables(c: char)
    ensures Member(c, Flags) <==> c in FlagLetters
    ensures Member(c, Digits) <==> c in DigitLetters
    ensures Member(c, Modifiers) <==> c in ModifierLetters
  {
  }

  lemma ConversionTables(c: char)
    ensures Converts(c) <==> c in ConversionLetters
    ensures IsInteger(c) <==> c in IntegerLetters
    ensures IsFloat(c) <==> c in DoubleLetters
  {
  }

  /** The same in terms of the scanners' classes. */
  ghost predicate All(s: string, k: Class) { forall i :: 0 <= i < |s| ==> Member(s[i], k) }

  lemma OnlyAll(s: string)
    ensures Only(s, FlagLetters) <==> All(s, Flags)
    ensures Only(s, DigitLetters) <==> All(s, Digits)
    ensures Only(s, ModifierLetters) <==> All(s, Modifiers)
  {
    forall c: char
      ensures (Member(c, Flags) <==> c in FlagLetters) && (Member(c, Digits) <==> c in DigitLetters)
      ensures Member(c, Modifiers) <==> c in ModifierLetters
    {
      ClassTables(c);
    }
  }

  ghost predicate Scannable(x: Piece) {
    match x
    case Text(c) => c != '%'
    case Conv(flags, width, precision, mods, conv) =>
      All(flags, Flags) && All(mods, Modifiers) && Converts(conv)
      && (width.Field? ==> All(width.digits, Digits) && (width.digits != [] ==> width.digits[0] != '0'))
      && (precision.Point? ==> All(precision.digits, Digits))
  }

  lemma PieceTables(x: Piece)
    ensures WellFormed(x) <==> Scannable(x)
  {
    if x.Conv? {
      OnlyAll(x.flags);
      OnlyAll(x.mods);
      ConversionTables(x.conv);
      if x.width.Field? { OnlyAll(x.width.digits); }
      if x.precision.Point? { OnlyAll(x.precision.digits); }
    }
  }

  // ---- The parser reads every format of the grammar ----

  lemma {:induction false} SpanStands(f: string, p: nat, s: string, k: Class)
    requires Stands(f, p, s) && All(s, k) && (p + |s| < |f| ==> !Member(f[p + |s|], k))
    ensures Span(f, p, k) == p + |s|
    decreases |s|
  {
    if s != "" {
      assert f[p] == s[0];
      assert f[p + 1..p + |s|] == s[1..];
      SpanStands(f, p + 1, s[1..], k);
    }
  }

  /** w is what the modifiers of s amount to. */
  predicate Amounts(w: Widths, s: string) {
    w.short == ('h' in s) && (w.wide == 0 <==> 'l' !in s && 'L' !in s)
  }

  lemma InLast(s: string, c: char)
    requires s != ""
    ensures c in s <==> c in s[..|s| - 1] || c == s[|s| - 1]
  {
    assert s == s[..|s| - 1] + [s[|s| - 1]];
  }

  /** One modifier more. */
  lemma WidthsNext(f: string, p: nat, m: nat, s: string)
    requires p <= m < |f| && s != "" && s[|s| - 1] == f[m] && Member(f[m], Modifiers)
      && Amounts(WidthsOf(f, p, m), s[..|s| - 1])
    ensures Amounts(WidthsOf(f, p, m + 1), s)
  {
    InLast(s, 'h');
    InLast(s, 'l');
    InLast(s, 'L');
  }

  lemma {:induction false} WidthsStand(f: string, p: nat, s: string)
    requires Stands(f, p, s) && All(s, Modifiers)
    ensures Amounts(WidthsOf(f, p, p + |s|), s)
    decreases |s|
  {
    if s != "" {
      var n := |s| - 1;
      StandsAt(f, p, s, n);
      assert f[p..p + n] == f[p..p + |s|][..n];
      WidthsStand(f, p, s[..n]);
      WidthsNext(f, p, p + n, s);
    }
  }

  lemma ConversionStands(f: string, q: nat, mods: string, conv: char, who: Scanner)
    requires who == Writer ==> conv != '%'
    requires Stands(f, q, mods + [conv]) && All(mods, Modifiers) && Converts(conv)
    ensures Conversion(f, q, who) == Spec(KindOf(mods, conv), q + |mods| + 1, Done)
  {
    StandsSplit(f, q, mods, [conv]);
    assert f[q + |mods|] == conv;
    SpanStands(f, q, mods, Modifiers);
    WidthsStand(f, q, mods);
    ConversionTables(conv);
  }

  /** What can start the part after a precision. */
  predicate Tail(c: char) { Member(c, Modifiers) || Converts(c) }

  lemma PointStands(f: string, w: nat, d: string, q: nat)
    requires Stands(f, w, "." + d) && All(d, Digits) && q == w + 1 + |d| < |f| && Tail(f[q])
    ensures !DotStar(f, w) && Dotted(f, w) == q
  {
    StandsSplit(f, w, ".", d);
    StandsAt(f, w, ".", 0);
    SpanStands(f, w + 1, d, Digits);
    if d != "" { StandsAt(f, w + 1, d, 0); }
  }

  lemma PointStarStands(f: string, w: nat)
    requires Stands(f, w, ".*")
    ensures DotStar(f, w)
  {
    StandsAt(f, w, ".*", 0);
    StandsAt(f, w, ".*", 1);
  }

  lemma PrecisionStands(f: string, w: nat, pr: Precision, rest: string)
    requires Stands(f, w, OfPrecision(pr) + rest) && rest != "" && Tail(rest[0])
    requires pr.Point? ==> All(pr.digits, Digits)
    ensures DotStar(f, w) == pr.PointStar?
    ensures !pr.PointStar? ==> Dotted(f, w) == w + |OfPrecision(pr)|
  {
    StandsSplit(f, w, OfPrecision(pr), rest);
    var q := w + |OfPrecision(pr)|;
    StandsAt(f, q, rest, 0);
    if pr.Point? { PointStands(f, w, pr.digits, q); }
    if pr.PointStar? { PointStarStands(f, w); }
  }

  lemma WidthStands(f: string, p: nat, flags: string, wd: Width, rest: string)
    requires Stands(f, p, flags + (OfWidth(wd) + rest)) && rest != "" && (rest[0] == '.' || Tail(rest[0]))
    requires All(flags, Flags)
    requires wd.Field? ==> All(wd.digits, Digits) && (wd.digits != [] ==> wd.digits[0] != '0')
    ensures Span(f, p, Flags) == p + |flags| < |f|
    ensures StarWidth(f, p) == wd.StarField? && WidthEnd(f, p) == p + |flags| + |OfWidth(wd)|
  {
    var a := p + |flags|;
    StandsSplit(f, p, flags, OfWidth(wd) + rest);
    StandsSplit(f, a, OfWidth(wd), rest);
    assert f[a + |OfWidth(wd)|] == rest[0];
    if OfWidth(wd) != "" { assert f[a] == OfWidth(wd)[0]; }
    SpanStands(f, p, flags, Flags);
    if wd.Field? { SpanStands(f, a, wd.digits, Digits); }
  }

  lemma PrefixSplit(f: string, p: nat, a: string, b: string, c: string, rest: string)
    requires Stands(f, p, a + (b + (c + rest)))
    ensures Stands(f, p + |a| + |b|, c + rest) && Stands(f, p + |a| + |b| + |c|, rest)
  {
    StandsSplit(f, p, a, b + (c + rest));
    StandsSplit(f, p + |a|, b, c + rest);
    StandsSplit(f, p + |a| + |b|, c, rest);
  }

  lemma TailStarts(pr: Precision, rest: string)
    requires rest != "" && Tail(rest[0])
    ensures var tail := OfPrecision(pr) + rest; tail != "" && (tail[0] == '.' || Tail(tail[0]))
  {
  }

  lemma PrefixStands(f: string, p: nat, flags: string, wd: Width, pr: Precision, rest: string, who: Scanner)
    requires who == Writer ==> !pr.PointStar?
    requires Stands(f, p, flags + (OfWidth(wd) + (OfPrecision(pr) + rest))) && rest != "" && Tail(rest[0])
    requires All(flags, Flags) && (pr.Point? ==> All(pr.digits, Digits))
    requires wd.Field? ==> All(wd.digits, Digits) && (wd.digits != [] ==> wd.digits[0] != '0')
    ensures Span(f, p, Flags) < |f| && StarWidth(f, p) == wd.StarField?
    ensures DotStar(f, WidthEnd(f, p)) == pr.PointStar?
    ensures PrecisionEnd(f, p, who) == p + |flags| + |OfWidth(wd)| + |OfPrecision(pr)|
    ensures Stands(f, PrecisionEnd(f, p, who), rest)
  {
    TailStarts(pr, rest);
    WidthStands(f, p, flags, wd, OfPrecision(pr) + rest);
    PrefixSplit(f, p, flags, OfWidth(wd), OfPrecision(pr), rest);
    PrecisionStands(f, WidthEnd(f, p), pr, rest);
  }

  /** The stars and the conversion make up a specifier. */
  lemma SpecifierFrom(f: string, p: nat, who: Scanner, q: nat, star: bool, dotted: bool)
    requires p <= |f| && Span(f, p, Flags) < |f| && q == PrecisionEnd(f, p, who) <= |f|
    requires star == StarWidth(f, p) && dotted == DotStar(f, WidthEnd(f, p))
    ensures var c := Conversion(f, q, who);
      Specifier(f, p, who)
      == Spec((if star then [KInt] else []) + (if dotted then [KInt] else []) + c.kinds, c.next, c.ending)
  {
  }

  lemma SpecifierStands(f: string, p: nat, x: Piece, who: Scanner)
    requires Readable(x, who)
    requires x.Conv? && WellFormed(x) && Stands(f, p, OfPiece(x))
    ensures f[p] == '%' && Specifier(f, p + 1, who) == Spec(KindsOfPiece(x), p + |OfPiece(x)|, Done)
  {
    PieceTables(x);
    var rest := x.mods + [x.conv];
    StandsSplit(f, p, "%", x.flags + (OfWidth(x.width) + (OfPrecision(x.precision) + rest)));
    StandsAt(f, p, "%", 0);
    assert Tail(rest[0]);
    PrefixStands(f, p + 1, x.flags, x.width, x.precision, rest, who);
    var q := PrecisionEnd(f, p + 1, who);
    ConversionStands(f, q, x.mods, x.conv, who);
    SpecifierFrom(f, p + 1, who, q, x.width.StarField?, x.precision.PointStar?);
  }

  lemma PieceStands(f: string, p: nat, x: Piece, who: Scanner)
    requires Fit(x, who) && Stands(f, p, OfPiece(x))
    ensures Walk(f, p, who) == Prepend(KindsOfPiece(x), Walk(f, p + |OfPiece(x)|, who))
  {
    if x.Conv? {
      SpecifierStands(f, p, x, who);
      WalkSpecifier(f, p, who, Specifier(f, p + 1, who));
    } else {
      TextStands(f, p, x.c, who);
    }
  }

  lemma {:induction false} TextStands(f: string, p: nat, c: char, who: Scanner)
    requires c != '%' && Stands(f, p, [c])
    ensures Walk(f, p, who) == Prepend([], Walk(f, p + 1, who))
  {
    StandsAt(f, p, [c], 0);
    assert [] + Walk(f, p + 1, who).kinds == Walk(f, p + 1, who).kinds;
  }

  lemma PieceThen(f: string, p: nat, x: Piece, who: Scanner, q: nat, more: seq<Kind>)
    requires Fit(x, who) && Stands(f, p, OfPiece(x)) && q == p + |OfPiece(x)|
    requires Walk(f, q, who) == Scan(more, Done)
    ensures Walk(f, p, who) == Scan(KindsOfPiece(x) + more, Done)
  {
    PieceStands(f, p, x, who);
  }

  /** ps spells f from p on, and who reads every piece of it. */
  ghost predicate Spells(f: string, p: nat, ps: seq<Piece>, who: Scanner) {
    var all := p <= |f| && Render(ps) == f[p..] && Legal(ps, who);
    all
  }

  lemma SpellsRest(f: string, p: nat, a: string, rest: seq<Piece>, who: Scanner)
    requires p <= |f| && f[p..] == a + Render(rest) && Legal(rest, who)
    ensures p + |a| <= |f| && Stands(f, p, a) && Spells(f, p + |a|, rest, who)
  {
    SuffixSplit(f, p, a, Render(rest));
  }

  lemma SpellsFirst(f: string, p: nat, ps: seq<Piece>, who: Scanner) returns (q: nat)
    requires Spells(f, p, ps, who) && ps != []
    ensures Fit(ps[0], who) && Stands(f, p, OfPiece(ps[0])) && q == p + |OfPiece(ps[0])| <= |f|
    ensures Spells(f, q, ps[1..], who)
  {
    var a := OfPiece(ps[0]);
    SpellsRest(f, p, a, ps[1..], who);
    q := p + |a|;
  }

  lemma SpellsNothing(f: string, p: nat, who: Scanner)
    requires Spells(f, p, [], who)
    ensures p == |f|
  {
  }

  lemma {:induction false} RenderStands(f: string, p: nat, ps: seq<Piece>, who: Scanner)
    requires Spells(f, p, ps, who)
    ensures p <= |f| && Walk(f, p, who) == Scan(Kinds(ps), Done)
    decreases |ps|
  {
    if ps == [] {
      SpellsNothing(f, p, who);
    } else {
      var q := SpellsFirst(f, p, ps, who);
      RenderStands(f, q, ps[1..], who);
      PieceThen(f, p, ps[0], who, q, Kinds(ps[1..]));
    }
  }

  /** The parser fetches exactly the arguments the grammar says. */
  lemma ParserReads(ps: seq<Piece>)
    requires Legal(ps, Parser)
    ensures Walk(Render(ps), 0, Parser) == Scan(Kinds(ps), Done)
  {
    RenderStands(Render(ps), 0, ps, Parser);
  }

  /** Without `%%` and `.*`, so does the writer store them. */
  lemma WriterReads(ps: seq<Piece>)
    requires Legal(ps, Writer)
    ensures Walk(Render(ps), 0, Writer) == Scan(Kinds(ps), Done)
  {
    RenderStands(Render(ps), 0, ps, Writer);
  }

  // ---- The parser reads nothing else ----

  lemma {:induction false} SpanAll(f: string, p: nat, k: Class)
    requires p <= |f|
    ensures All(f[p..Span(f, p, k)], k)
    decreases |f| - p
  {
    var e := Span(f, p, k);
    if p < |f| && Member(f[p], k) {
      SpanAll(f, p + 1, k);
      assert f[p..e] == [f[p]] + f[p + 1..e];
    }
  }

  /** The precision that starts at w. */
  function PrecisionAt(f: string, w: nat): (r: Precision)
    requires w <= |f|
  {
    if DotStar(f, w) then PointStar
    else if IsAt(f, w, '.') then Point(f[w + 1..Dotted(f, w)]) else NoPrecision
  }

  function WidthAt(f: string, p: nat): (r: Width)
    requires p <= |f|
  {
    if StarWidth(f, p) then StarField else Field(f[Span(f, p, Flags)..WidthEnd(f, p)])
  }

  function PieceAt(f: string, p: nat): (x: Piece)
    requires p <= |f| && Specifier(f, p, Parser).ending == Done
  {
    var q := PrecisionEnd(f, p, Parser);
    var m := Span(f, q, Modifiers);
    Conv(f[p..Span(f, p, Flags)], WidthAt(f, p), PrecisionAt(f, WidthEnd(f, p)), f[q..m], f[m])
  }

  lemma PrecisionIs(f: string, w: nat)
    requires w <= |f|
    ensures var e := if DotStar(f, w) then w + 2 else Dotted(f, w);
      w <= e <= |f| && OfPrecision(PrecisionAt(f, w)) == f[w..e]
    ensures PrecisionAt(f, w).Point? ==> All(PrecisionAt(f, w).digits, Digits)
  {
    if !DotStar(f, w) && IsAt(f, w, '.') {
      SpanAll(f, w + 1, Digits);
      assert f[w..Dotted(f, w)] == "." + f[w + 1..Dotted(f, w)];
    }
  }

  lemma WidthIs(f: string, p: nat)
    requires p <= |f|
    ensures OfWidth(WidthAt(f, p)) == f[Span(f, p, Flags)..WidthEnd(f, p)]
    ensures WidthAt(f, p).Field? ==> All(WidthAt(f, p).digits, Digits)
                                     && (WidthAt(f, p).digits != [] ==> WidthAt(f, p).digits[0] != '0')
  {
    var a := Span(f, p, Flags);
    SpanEnds(f, p, Flags);
    if !StarWidth(f, p) { SpanAll(f, a, Digits); }
  }

  lemma {:induction false} SpanEnds(f: string, p: nat, k: Class)
    requires p <= |f|
    ensures Span(f, p, k) < |f| ==> !Member(f[Span(f, p, k)], k)
    decreases |f| - p
  {
    if p < |f| && Member(f[p], k) { SpanEnds(f, p + 1, k); }
  }

  lemma PieceEnds(f: string, p: nat)
    requires p <= |f| && Specifier(f, p, Parser).ending == Done
    ensures PrecisionEnd(f, p, Parser) <= |f|
    ensures Span(f, PrecisionEnd(f, p, Parser), Modifiers) < |f|
    ensures Specifier(f, p, Parser).next == Span(f, PrecisionEnd(f, p, Parser), Modifiers) + 1
    ensures Converts(f[Span(f, PrecisionEnd(f, p, Parser), Modifiers)])
  {
  }

  lemma PieceFits(f: string, p: nat)
    requires p <= |f| && Specifier(f, p, Parser).ending == Done
    ensures WellFormed(PieceAt(f, p))
  {
    PieceTables(PieceAt(f, p));
    PieceEnds(f, p);
    SpanAll(f, p, Flags);
    WidthIs(f, p);
    PrecisionIs(f, WidthEnd(f, p));
    SpanAll(f, PrecisionEnd(f, p, Parser), Modifiers);
  }

  lemma GlueAll(f: string, p: nat, a: nat, w: nat, q: nat, m: nat)
    requires 0 < p <= a <= w <= q <= m < |f| && f[p - 1] == '%'
    ensures "%" + (f[p..a] + (f[a..w] + (f[w..q] + (f[q..m] + [f[m]])))) == f[p - 1..m + 1]
  {
    assert f[m..m + 1] == [f[m]] && f[p - 1..p] == "%";
    Glue(f, q, m, m + 1);
    Glue(f, w, q, m + 1);
    Glue(f, a, w, m + 1);
    Glue(f, p, a, m + 1);
    Glue(f, p - 1, p, m + 1);
  }

  lemma GluePiece(f: string, p: nat, a: nat, w: nat, q: nat, m: nat, x: Piece)
    requires 0 < p <= a <= w <= q <= m < |f| && f[p - 1] == '%'
    requires x.Conv? && x.flags == f[p..a] && x.mods == f[q..m] && x.conv == f[m]
    requires OfWidth(x.width) == f[a..w] && OfPrecision(x.precision) == f[w..q]
    ensures OfPiece(x) == f[p - 1..m + 1]
  {
    GlueAll(f, p, a, w, q, m);
  }

  lemma PrecisionEndIs(f: string, p: nat)
    requires p <= |f|
    ensures WidthEnd(f, p) <= PrecisionEnd(f, p, Parser) <= |f|
    ensures OfPrecision(PrecisionAt(f, WidthEnd(f, p))) == f[WidthEnd(f, p)..PrecisionEnd(f, p, Parser)]
  {
    PrecisionIs(f, WidthEnd(f, p));
  }

  lemma PieceIs(f: string, p: nat)
    requires 0 < p <= |f| && f[p - 1] == '%' && Specifier(f, p, Parser).ending == Done
    ensures OfPiece(PieceAt(f, p)) == f[p - 1..Specifier(f, p, Parser).next]
  {
    PieceEnds(f, p);
    PrecisionEndIs(f, p);
    WidthIs(f, p);
    var q := PrecisionEnd(f, p, Parser);
    GluePiece(f, p, Span(f, p, Flags), WidthEnd(f, p), q, Span(f, q, Modifiers), PieceAt(f, p));
  }

  lemma ConvPiece(f: string, p: nat, next: nat) returns (x: Piece)
    requires p < |f| && f[p] == '%' && Specifier(f, p + 1, Parser).ending == Done
      && next == Specifier(f, p + 1, Parser).next
    ensures p < next <= |f| && Fit(x, Parser) && OfPiece(x) == f[p..next]
  {
    PieceIs(f, p + 1);
    PieceFits(f, p + 1);
    x := PieceAt(f, p + 1);
  }

  lemma TextPiece(f: string, p: nat) returns (x: Piece)
    requires p < |f| && f[p] != '%'
    ensures Fit(x, Parser) && OfPiece(x) == f[p..p + 1]
  {
    x := Text(f[p]);
  }

  /** The piece at the front of a format the parser survives, and the rest. */
  lemma FirstPiece(f: string, p: nat) returns (x: Piece, next: nat)
    requires p < |f| && Walk(f, p, Parser).ending == Done
    ensures p < next <= |f| && Walk(f, next, Parser).ending == Done
    ensures Fit(x, Parser) && OfPiece(x) == f[p..next]
  {
    if f[p] == '%' {
      var one := Specifier(f, p + 1, Parser);
      next := one.next;
      WalkSpecifier(f, p, Parser, one);
      x := ConvPiece(f, p, next);
    } else {
      next := p + 1;
      x := TextPiece(f, p);
    }
  }

  lemma SpellsEnd(f: string)
    ensures Spells(f, |f|, [], Parser)
  {
  }

  lemma RenderMore(x: Piece, more: seq<Piece>)
    ensures Render([x] + more) == OfPiece(x) + Render(more)
  {
    assert ([x] + more)[1..] == more;
  }

  lemma LegalMore(x: Piece, more: seq<Piece>)
    requires Fit(x, Parser) && Legal(more, Parser)
    ensures Legal([x] + more, Parser)
  {
    assert ([x] + more)[1..] == more;
  }

  lemma SpellsMore(f: string, p: nat, next: nat, x: Piece, more: seq<Piece>)
    requires p < next <= |f| && Fit(x, Parser) && OfPiece(x) == f[p..next] && Spells(f, next, more, Parser)
    ensures Spells(f, p, [x] + more, Parser)
  {
    RenderMore(x, more);
    LegalMore(x, more);
    Rest(f, p, next, OfPiece(x), Render(more));
  }

  lemma {:induction false} Rest(f: string, p: nat, next: nat, a: string, b: string)
    requires p <= next <= |f| && a == f[p..next] && b == f[next..]
    ensures a + b == f[p..]
  {
  }

  lemma {:induction false} Parsed(f: string, p: nat) returns (ps: seq<Piece>)
    requires p <= |f| && Walk(f, p, Parser).ending == Done
    ensures Spells(f, p, ps, Parser)
    decreases |f| - p
  {
    if p == |f| {
      ps := [];
      SpellsEnd(f);
    } else {
      var x, next := FirstPiece(f, p);
      var more := Parsed(f, next);
      SpellsMore(f, p, next, x, more);
      ps := [x] + more;
    }
  }

  lemma Spelled(f: string, ps: seq<Piece>)
    ensures Spells(f, 0, ps, Parser) <==> Render(ps) == f && Legal(ps, Parser)
  {
    assert f[0..] == f;
  }

  /** The formats the parser survives are exactly those of the grammar. */
  lemma GrammarExact(f: string)
    ensures Walk(f, 0, Parser).ending == Done
       <==> exists ps: seq<Piece> :: Render(ps) == f && Legal(ps, Parser)
  {
    if Walk(f, 0, Parser).ending == Done {
      var ps := Parsed(f, 0);
      Spelled(f, ps);
    } else {
      forall ps: seq<Piece> | Legal(ps, Parser)
        ensures Render(ps) != f
      {
        ParserReads(ps);
      }
    }
  }
}

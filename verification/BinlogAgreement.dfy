/**
 * When the two scanners agree. They part at `%%`, where the writer leaves its cursor on the second `%`,
 * and at `.*`, where it steps over the character after the star; whatever they do in between, they meet
 * again after each specifier.
 */
module BinlogAgreement {
  import opened BinlogFormat

  /** Past flags, a width, a precision and modifiers, none of them a star. */
  function PlainEnd(f: string, p: nat): (e: nat)
    requires p <= |f|
    ensures p <= e <= |f|
  {
    Span(f, Dotted(f, Span(f, Span(f, p, Flags), Digits)), Modifiers)
  }

  /**
   * What may follow a `%%`: the inside of a star-free specifier, and then another `%`. The writer
   * leaves its cursor on the second `%`, so it reads whatever follows as a specifier of its own.
   */
  predicate Quiet(f: string, p: nat)
    requires p <= |f|
  {
    IsAt(f, PlainEnd(f, p), '%')
  }

  /** Where the two scanners look for modifiers after `.*`: the writer, one character further on. */
  function AfterStar(f: string, p: nat): (q: nat)
    requires p <= |f|
    ensures p <= q
  {
    WidthEnd(f, p) + 2
  }

  /** The conversion and its modifiers, read from q. */
  function TakenFrom(f: string, q: nat): (k: seq<Kind>)
    requires q <= |f| && Span(f, q, Modifiers) < |f|
  {
    var m := Span(f, q, Modifiers);
    var w := WidthsOf(f, q, m);
    Taken(f[m], w.short, w.wide)
  }

  /**
   * A specifier with a `.*` precision on which the scanners agree: one character further on, the writer
   * still finds a conversion, which takes the same argument. If it stays on a final `%`, having got there
   * through modifiers, what follows must be quiet as after `%%`.
   */
  predicate StarHarmless(f: string, p: nat)
    requires p <= |f|
  {
    var q := AfterStar(f, p);
    q < |f|
    && var m, l := Span(f, q, Modifiers), Span(f, q + 1, Modifiers);
       m < |f| && l < |f| && Converts(f[l]) && TakenFrom(f, q) == TakenFrom(f, q + 1)
       && (m > q && f[m] == '%' ==> Quiet(f, m + 1))
  }

  /** Every specifier, as the parser reads them, is one on which the scanners agree. */
  predicate Harmless(f: string, p: nat)
    requires p <= |f|
    decreases |f| - p
  {
    if p == |f| then true
    else if f[p] != '%' then Harmless(f, p + 1)
    else
      var one := Specifier(f, p + 1, Parser);
      one.ending == Done ==>
        (if DotStar(f, WidthEnd(f, p + 1)) then StarHarmless(f, p + 1)
          else f[one.next - 1] == '%' ==> Quiet(f, one.next))
        && Harmless(f, one.next)
  }

  /**
   * After `.*` the writer skips a conversion that takes an argument and stops at a `%`: it stores nothing
   * where the parser fetches something.
   */
  predicate Swallows(f: string, p: nat)
    requires p <= |f|
  {
    var q := AfterStar(f, p);
    DotStar(f, WidthEnd(f, p)) && q < |f| && Converts(f[q]) && f[q] != '%' && IsAt(f, Span(f, q + 1, Modifiers), '%')
  }

  /** No specifier, as the parser reads them, is swallowed. */
  predicate NothingSwallowed(f: string, p: nat)
    requires p <= |f|
    decreases |f| - p
  {
    if p == |f| then true
    else if f[p] != '%' then NothingSwallowed(f, p + 1)
    else
      var one := Specifier(f, p + 1, Parser);
      one.ending == Done ==> !Swallows(f, p + 1) && NothingSwallowed(f, one.next)
  }

  ghost predicate NoPercent(f: string, p: nat, q: nat)
    requires q <= |f|
  {
    forall i :: p <= i < q ==> f[i] != '%'
  }

  lemma {:induction false} TextSkipped(f: string, p: nat, q: nat, who: Scanner)
    requires p <= q <= |f| && NoPercent(f, p, q)
    ensures Walk(f, p, who) == Walk(f, q, who) && Harmless(f, p) == Harmless(f, q)
    ensures NothingSwallowed(f, p) == NothingSwallowed(f, q)
    decreases q - p
  {
    if p < q { TextSkipped(f, p + 1, q, who); }
  }

  lemma {:induction false} SpanText(f: string, p: nat, k: Class)
    requires p <= |f|
    ensures NoPercent(f, p, Span(f, p, k))
    decreases |f| - p
  {
    if p < |f| && Member(f[p], k) { SpanText(f, p + 1, k); }
  }

  lemma WidthText(f: string, p: nat)
    requires p <= |f|
    ensures NoPercent(f, p, WidthEnd(f, p))
  {
    SpanText(f, p, Flags);
    SpanText(f, Span(f, p, Flags), Digits);
  }

  lemma PrefixText(f: string, p: nat)
    requires p <= |f| && !DotStar(f, WidthEnd(f, p))
    ensures PrecisionEnd(f, p, Writer) <= |f|
    ensures NoPercent(f, p, Span(f, PrecisionEnd(f, p, Writer), Modifiers))
  {
    var w := WidthEnd(f, p);
    WidthText(f, p);
    if IsAt(f, w, '.') { SpanText(f, w + 1, Digits); }
    SpanText(f, Dotted(f, w), Modifiers);
  }

  /** A star in the width stops the star-free reading there. */
  lemma StarStops(f: string, p: nat)
    requires p <= |f| && StarWidth(f, p)
    ensures !Quiet(f, p)
  {
  }

  /** The writer reads quiet text followed by `%` as a specifier that consumes nothing. */
  lemma QuietSpecifier(f: string, p: nat)
    requires p <= |f| && !DotStar(f, WidthEnd(f, p)) && Quiet(f, p)
    ensures Specifier(f, p, Writer) == Spec([], PlainEnd(f, p), Done)
  {
    if StarWidth(f, p) {
      StarStops(f, p);
      assert false;
    }
  }

  /** Any other text makes it consume an argument that is not there, abort or overrun. */
  lemma LoudSpecifier(f: string, p: nat)
    requires p <= |f| && !DotStar(f, WidthEnd(f, p)) && !Quiet(f, p) && Specifier(f, p, Writer).ending == Done
    ensures Specifier(f, p, Writer).kinds != []
  {
    assert !StarWidth(f, p) ==> Span(f, PrecisionEnd(f, p, Writer), Modifiers) == PlainEnd(f, p);
  }

  /** Either way it reads only text. */
  lemma SpecifierText(f: string, p: nat)
    requires p <= |f| && !DotStar(f, WidthEnd(f, p)) && Specifier(f, p, Writer).ending == Done
    ensures NoPercent(f, p, Specifier(f, p, Writer).next)
  {
    PrefixText(f, p);
  }

  /** Apart from where it leaves the cursor on `%`, the writer reads one specifier as the parser does. */
  lemma SameSpecifier(f: string, p: nat)
    requires p <= |f| && !DotStar(f, WidthEnd(f, p)) && Specifier(f, p, Parser).ending == Done
    ensures var r := Specifier(f, p, Parser);
            p < r.next
              && Specifier(f, p, Writer) == Spec(r.kinds, if f[r.next - 1] == '%' then r.next - 1 else r.next, Done)
  {
  }

  // ---- One specifier with `.*` ----

  /** What the parser makes of it. */
  lemma ParserStar(f: string, p: nat)
    requires p <= |f| && DotStar(f, WidthEnd(f, p)) && Specifier(f, p, Parser).ending == Done
    ensures var q := AfterStar(f, p);
      q < |f| && Span(f, q, Modifiers) < |f| && Converts(f[Span(f, q, Modifiers)])
      && Specifier(f, p, Parser) == Spec(Stars(f, p) + TakenFrom(f, q), Span(f, q, Modifiers) + 1, Done)
  {
  }

  /** What the writer makes of it. */
  lemma WriterStar(f: string, p: nat)
    requires p <= |f| && DotStar(f, WidthEnd(f, p)) && AfterStar(f, p) < |f|
    ensures var l := Span(f, AfterStar(f, p) + 1, Modifiers);
      if l < |f| && Converts(f[l]) then
        Specifier(f, p, Writer)
          == Spec(Stars(f, p) + TakenFrom(f, AfterStar(f, p) + 1), if f[l] == '%' then l else l + 1, Done)
      else Specifier(f, p, Writer).ending != Done
  {
    StarFlags(f, p);
  }

  lemma StarFlags(f: string, p: nat)
    requires p <= |f| && DotStar(f, WidthEnd(f, p))
    ensures Span(f, p, Flags) < |f| && Stars(f, p) != []
  {
  }

  /** Through modifiers both reach the same conversion; otherwise the writer skips the parser's. */
  lemma StarMeets(f: string, q: nat)
    requires q < |f| && Span(f, q, Modifiers) < |f|
    ensures Span(f, q, Modifiers) > q ==> Span(f, q + 1, Modifiers) == Span(f, q, Modifiers)
    ensures NoPercent(f, q + 1, Span(f, q + 1, Modifiers))
  {
    SpanText(f, q + 1, Modifiers);
  }

  /** A conversion with its modifiers and nothing before them. */
  lemma PlainConversion(f: string, q: nat)
    requires q <= |f| && Span(f, q, Modifiers) < |f| && Converts(f[Span(f, q, Modifiers)])
    ensures !DotStar(f, WidthEnd(f, q))
    ensures Specifier(f, q, Parser) == Spec(TakenFrom(f, q), Span(f, q, Modifiers) + 1, Done)
  {
    assert Span(f, q, Flags) == q && WidthEnd(f, q) == q && Dotted(f, q) == q;
    assert Stars(f, q) == [];
  }

  /** With `.*` nothing is quiet. */
  lemma StarLoud(f: string, p: nat)
    requires p <= |f| && DotStar(f, WidthEnd(f, p))
    ensures !Quiet(f, p)
  {
    if StarWidth(f, p) { StarStops(f, p); }
  }

  /** The writer's reading of text with `.*`, unless the character it skips is a `%`. */
  lemma StarText(f: string, p: nat)
    requires p <= |f| && DotStar(f, WidthEnd(f, p)) && AfterStar(f, p) < |f| && f[AfterStar(f, p)] != '%'
    requires Specifier(f, p, Writer).ending == Done
    ensures NoPercent(f, p, Specifier(f, p, Writer).next)
  {
    WriterStar(f, p);
    WidthText(f, p);
    SpanText(f, AfterStar(f, p) + 1, Modifiers);
  }

  // ---- Comparing whole scans ----

  /** The writer, if it survives, stores at least as much as the parser fetches. */
  predicate AtLeast(w: Scan, p: Scan) { w.ending == Done ==> |w.kinds| >= |p.kinds| }

  predicate More(w: Scan, p: Scan) { w.ending == Done ==> |w.kinds| > |p.kinds| }

  lemma SamePrefix(k: seq<Kind>, w: Scan, p: Scan)
    requires AtLeast(w, p)
    ensures AtLeast(Prepend(k, w), Prepend(k, p)) && (Prepend(k, w) == Prepend(k, p) <==> w == p)
  {
    assert (k + w.kinds)[|k|..] == w.kinds && (k + p.kinds)[|k|..] == p.kinds;
  }

  lemma DifferentPrefix(a: seq<Kind>, b: seq<Kind>, w: Scan, p: Scan)
    requires AtLeast(w, p) && p.ending == Done && |a| >= |b| && a != b
    ensures AtLeast(Prepend(a, w), Prepend(b, p)) && Prepend(a, w) != Prepend(b, p)
  {
    if |a| == |b| && w.ending == Done {
      assert (a + w.kinds)[..|a|] == a && (b + p.kinds)[..|b|] == b;
    }
  }

  lemma LongerPrefix(a: seq<Kind>, b: seq<Kind>, w: Scan, p: Scan)
    requires AtLeast(w, p) && |a| > |b|
    ensures More(Prepend(a, w), Prepend(b, p))
  {
  }

  /** The parser on a `%` followed by a conversion with its modifiers. */
  lemma PercentThen(f: string, q: nat, l: nat)
    requires q < |f| && f[q] == '%' && l == Span(f, q + 1, Modifiers) < |f| && Converts(f[l])
    ensures Walk(f, q, Parser) == Prepend(TakenFrom(f, q + 1), Walk(f, l + 1, Parser))
    ensures NothingSwallowed(f, q) ==> NothingSwallowed(f, l + 1)
  {
    PlainConversion(f, q + 1);
    WalkSpecifier(f, q, Parser, Specifier(f, q + 1, Parser));
  }

  lemma StarTextBefore(f: string, p: nat, who: Scanner)
    requires p <= |f| && DotStar(f, WidthEnd(f, p))
    ensures AfterStar(f, p) <= |f| && Walk(f, p, who) == Walk(f, AfterStar(f, p), who)
    ensures NothingSwallowed(f, p) == NothingSwallowed(f, AfterStar(f, p))
  {
    WidthText(f, p);
    TextSkipped(f, p, AfterStar(f, p), who);
  }

  /** After `%%`, text with `.*` whose skipped character is text too. */
  lemma {:induction false} AfterPercentRead(f: string, p: nat, one: Spec)
    requires 0 < p <= |f| && f[p - 1] == '%' && DotStar(f, WidthEnd(f, p)) && AfterStar(f, p) < |f|
      && f[AfterStar(f, p)] != '%'
    requires one == Specifier(f, p, Writer) && one.ending == Done
    requires Walk(f, p, Parser).ending == Done && NothingSwallowed(f, p)
    ensures More(Walk(f, p - 1, Writer), Walk(f, p, Parser))
    decreases |f| - p, 1
  {
    StarFlags(f, p);
    StarText(f, p);
    StarMoves(f, p);
    WalkSpecifier(f, p - 1, Writer, one);
    TextSkipped(f, p, one.next, Parser);
    Compare(f, one.next);
    LongerPrefix(one.kinds, [], Walk(f, one.next, Writer), Walk(f, one.next, Parser));
  }

  /** The writer's reading moves on and takes what the stars and the conversion take. */
  lemma StarMoves(f: string, p: nat)
    requires p <= |f| && DotStar(f, WidthEnd(f, p)) && AfterStar(f, p) < |f| && Specifier(f, p, Writer).ending == Done
    ensures var one, l := Specifier(f, p, Writer), Span(f, AfterStar(f, p) + 1, Modifiers);
      l < |f| && p < l && one.next == (if f[l] == '%' then l else l + 1)
        && one.kinds == Stars(f, p) + TakenFrom(f, AfterStar(f, p) + 1)
      && |one.kinds| > |TakenFrom(f, AfterStar(f, p) + 1)|
  {
    WriterStar(f, p);
    StarFlags(f, p);
  }

  /** The writer goes on after a conversion it has read at l, the parser after the same one. */
  lemma {:induction false} GoesOn(f: string, l: nat)
    requires l < |f| && Walk(f, l + 1, Parser).ending == Done && NothingSwallowed(f, l + 1)
    ensures AtLeast(Walk(f, if f[l] == '%' then l else l + 1, Writer), Walk(f, l + 1, Parser))
    decreases |f| - l, 0
  {
    if f[l] == '%' { AfterPercent(f, l + 1); } else { Compare(f, l + 1); }
  }

  /**
   * After `%%`, text with `.*` whose skipped character is a `%`: from there the parser reads the
   * specifier that the writer finds.
   */
  lemma {:induction false} AfterPercentSkip(f: string, p: nat, one: Spec, l: nat)
    requires 0 < p <= |f| && f[p - 1] == '%' && DotStar(f, WidthEnd(f, p)) && AfterStar(f, p) < |f|
      && f[AfterStar(f, p)] == '%'
    requires one == Specifier(f, p, Writer) && one.ending == Done && l == Span(f, AfterStar(f, p) + 1, Modifiers)
    requires Walk(f, p, Parser).ending == Done && NothingSwallowed(f, p)
    ensures More(Walk(f, p - 1, Writer), Walk(f, p, Parser))
    decreases |f| - p, 1
  {
    var q := AfterStar(f, p);
    StarMoves(f, p);
    StarTextBefore(f, p, Parser);
    PercentThen(f, q, l);
    GoesOn(f, l);
    SkipConcludes(f, p, one, TakenFrom(f, q + 1), Walk(f, one.next, Writer), Walk(f, l + 1, Parser));
  }

  lemma SkipConcludes(f: string, p: nat, one: Spec, k: seq<Kind>, w: Scan, r: Scan)
    requires 0 < p <= |f| && f[p - 1] == '%' && one == Specifier(f, p, Writer) && one.ending == Done
    requires w == Walk(f, one.next, Writer) && AtLeast(w, r) && |one.kinds| > |k| && Walk(f, p, Parser) == Prepend(k, r)
    ensures More(Walk(f, p - 1, Writer), Walk(f, p, Parser))
  {
    WalkSpecifier(f, p - 1, Writer, one);
    LongerPrefix(one.kinds, k, w, r);
  }

  /** After `%%`, text with `.*`: the writer takes arguments where the parser takes none or fewer. */
  lemma {:induction false} AfterPercentStar(f: string, p: nat)
    requires 0 < p <= |f| && f[p - 1] == '%' && DotStar(f, WidthEnd(f, p))
    requires Walk(f, p, Parser).ending == Done && NothingSwallowed(f, p)
    ensures More(Walk(f, p - 1, Writer), Walk(f, p, Parser))
    decreases |f| - p, 2
  {
    var one, q := Specifier(f, p, Writer), AfterStar(f, p);
    if one.ending == Done && q < |f| {
      if f[q] == '%' { AfterPercentSkip(f, p, one, Span(f, q + 1, Modifiers)); } else { AfterPercentRead(f, p, one); }
    }
  }

  /** The writer restarts on the second `%` of a `%%`. */
  lemma {:induction false} AfterPercent(f: string, p: nat)
    requires 0 < p <= |f| && f[p - 1] == '%' && Walk(f, p, Parser).ending == Done && NothingSwallowed(f, p)
    ensures AtLeast(Walk(f, p - 1, Writer), Walk(f, p, Parser))
    ensures Walk(f, p - 1, Writer) == Walk(f, p, Parser) <==> Quiet(f, p) && Harmless(f, p)
    decreases |f| - p, 3
  {
    if DotStar(f, WidthEnd(f, p)) {
      StarLoud(f, p);
      AfterPercentStar(f, p);
    } else {
      AfterPercentText(f, p);
    }
  }

  lemma {:induction false} AfterPercentText(f: string, p: nat)
    requires 0 < p <= |f| && f[p - 1] == '%' && Walk(f, p, Parser).ending == Done && NothingSwallowed(f, p)
    requires !DotStar(f, WidthEnd(f, p))
    ensures AtLeast(Walk(f, p - 1, Writer), Walk(f, p, Parser))
    ensures Walk(f, p - 1, Writer) == Walk(f, p, Parser) <==> Quiet(f, p) && Harmless(f, p)
    decreases |f| - p, 2
  {
    var one := Specifier(f, p, Writer);
    if Quiet(f, p) { QuietSpecifier(f, p); }
    if one.ending == Done {
      WalkSpecifier(f, p - 1, Writer, one);
      SpecifierText(f, p);
      TextSkipped(f, p, one.next, Parser);
      Compare(f, one.next);
      if !Quiet(f, p) {
        LoudSpecifier(f, p);
        LongerPrefix(one.kinds, [], Walk(f, one.next, Writer), Walk(f, one.next, Parser));
      }
    }
  }

  /** Both scanners reach the final `%` of a specifier, and the writer stays on it. */
  lemma {:induction false} CompareStays(f: string, p: nat, m: nat, k: seq<Kind>)
    requires 0 < p <= |f| && f[p - 1] == '%' && p <= m < |f| && f[m] == '%'
    requires Specifier(f, p, Parser) == Spec(k, m + 1, Done) && Specifier(f, p, Writer) == Spec(k, m, Done)
    requires Walk(f, m + 1, Parser).ending == Done && NothingSwallowed(f, m + 1)
    ensures AtLeast(Walk(f, p - 1, Writer), Walk(f, p - 1, Parser))
    ensures Walk(f, p - 1, Writer) == Walk(f, p - 1, Parser) <==> Quiet(f, m + 1) && Harmless(f, m + 1)
    decreases |f| - p, 1
  {
    WalkSpecifier(f, p - 1, Parser, Spec(k, m + 1, Done));
    WalkSpecifier(f, p - 1, Writer, Spec(k, m, Done));
    AfterPercent(f, m + 1);
    SamePrefix(k, Walk(f, m, Writer), Walk(f, m + 1, Parser));
  }

  /** Both scanners meet where the writer's cursor is. */
  lemma {:induction false} CompareMeets(f: string, p: nat, r: Spec, s: Spec, a: seq<Kind>, b: seq<Kind>)
    requires 0 < p <= |f| && f[p - 1] == '%' && p < r.next <= s.next <= |f| && NoPercent(f, r.next, s.next)
    requires r == Specifier(f, p, Parser) && r.ending == Done && s == Specifier(f, p, Writer) && s.ending == Done
    requires s.kinds == Stars(f, p) + a && r.kinds == Stars(f, p) + b && |a| >= |b|
    requires Walk(f, r.next, Parser).ending == Done && NothingSwallowed(f, r.next)
    ensures AtLeast(Walk(f, p - 1, Writer), Walk(f, p - 1, Parser))
    ensures Walk(f, p - 1, Writer) == Walk(f, p - 1, Parser) <==> a == b && Harmless(f, r.next)
    decreases |f| - p, 1
  {
    WalkSpecifier(f, p - 1, Parser, r);
    WalkSpecifier(f, p - 1, Writer, s);
    TextSkipped(f, r.next, s.next, Parser);
    Compare(f, s.next);
    ComparePrefixes(Stars(f, p), a, b, Walk(f, s.next, Writer), Walk(f, s.next, Parser));
  }

  /** Where the two cursors are after a specifier with `.*`. */
  lemma StarCursors(f: string, p: nat)
    requires p <= |f| && DotStar(f, WidthEnd(f, p)) && !Swallows(f, p)
    requires Specifier(f, p, Parser).ending == Done && Specifier(f, p, Writer).ending == Done
    ensures var q := AfterStar(f, p); q < |f| && Span(f, q, Modifiers) < |f| && Span(f, q + 1, Modifiers) < |f|
    ensures var q, r, s := AfterStar(f, p), Specifier(f, p, Parser), Specifier(f, p, Writer);
      p < r.next && r.kinds == Stars(f, p) + TakenFrom(f, q) && s.kinds == Stars(f, p) + TakenFrom(f, q + 1)
      && |TakenFrom(f, q + 1)| >= |TakenFrom(f, q)|
    ensures var q, r, s := AfterStar(f, p), Specifier(f, p, Parser), Specifier(f, p, Writer);
      var m := Span(f, q, Modifiers);
      if m > q && f[m] == '%' then r.next == m + 1 && s.next == m && TakenFrom(f, q) == TakenFrom(f, q + 1) == []
      else r.next <= s.next <= |f| && NoPercent(f, r.next, s.next)
  {
    ParserStar(f, p);
    WriterStar(f, p);
    StarMeets(f, AfterStar(f, p));
  }

  lemma StarUnfolded(f: string, p: nat, r: Spec)
    requires p < |f| && f[p] == '%' && DotStar(f, WidthEnd(f, p + 1)) && r == Specifier(f, p + 1, Parser)
    requires Walk(f, p, Parser).ending == Done && NothingSwallowed(f, p)
    ensures r.ending == Done && !Swallows(f, p + 1)
    ensures Walk(f, r.next, Parser).ending == Done && NothingSwallowed(f, r.next)
    ensures Harmless(f, p) <==> StarHarmless(f, p + 1) && Harmless(f, r.next)
  {
  }

  /** A `.*` specifier that both scanners survive. */
  lemma {:induction false} CompareStarred(f: string, p: nat, r: Spec, s: Spec)
    requires 0 < p <= |f| && f[p - 1] == '%' && DotStar(f, WidthEnd(f, p)) && !Swallows(f, p)
    requires r == Specifier(f, p, Parser) && r.ending == Done && s == Specifier(f, p, Writer) && s.ending == Done
    requires Walk(f, r.next, Parser).ending == Done && NothingSwallowed(f, r.next)
    ensures AtLeast(Walk(f, p - 1, Writer), Walk(f, p - 1, Parser))
    ensures Walk(f, p - 1, Writer) == Walk(f, p - 1, Parser) <==> StarHarmless(f, p) && Harmless(f, r.next)
    decreases |f| - p, 2
  {
    var q := AfterStar(f, p);
    StarCursors(f, p);
    var m, a, b := Span(f, q, Modifiers), TakenFrom(f, q + 1), TakenFrom(f, q);
    assert StarHarmless(f, p) <==> b == a && (m > q && f[m] == '%' ==> Quiet(f, m + 1)) by { StarHarmlessIs(f, p); }
    if m > q && f[m] == '%' {
      assert Stars(f, p) + [] == Stars(f, p);
      CompareStays(f, p, m, Stars(f, p));
    } else {
      CompareMeets(f, p, r, s, a, b);
    }
  }

  lemma StarConverts(f: string, p: nat)
    requires p <= |f| && DotStar(f, WidthEnd(f, p)) && AfterStar(f, p) < |f|
    ensures Specifier(f, p, Writer).ending == Done
       <==> var l := Span(f, AfterStar(f, p) + 1, Modifiers); l < |f| && Converts(f[l])
  {
    WriterStar(f, p);
  }

  /** What is left of the condition on a `.*` specifier that both scanners survive. */
  lemma StarHarmlessIs(f: string, p: nat)
    requires p <= |f| && DotStar(f, WidthEnd(f, p)) && AfterStar(f, p) < |f|
    requires Span(f, AfterStar(f, p), Modifiers) < |f| && Span(f, AfterStar(f, p) + 1, Modifiers) < |f|
    requires Specifier(f, p, Writer).ending == Done
    ensures var q := AfterStar(f, p); var m := Span(f, q, Modifiers);
      StarHarmless(f, p) <==> TakenFrom(f, q) == TakenFrom(f, q + 1) && (m > q && f[m] == '%' ==> Quiet(f, m + 1))
  {
    StarConverts(f, p);
  }

  /** From a specifier with `.*` on. */
  lemma {:induction false} CompareStar(f: string, p: nat)
    requires p < |f| && f[p] == '%' && DotStar(f, WidthEnd(f, p + 1))
    requires Walk(f, p, Parser).ending == Done && NothingSwallowed(f, p)
    ensures AtLeast(Walk(f, p, Writer), Walk(f, p, Parser))
    ensures Walk(f, p, Writer) == Walk(f, p, Parser) <==> Harmless(f, p)
    decreases |f| - p, 0
  {
    var r, s := Specifier(f, p + 1, Parser), Specifier(f, p + 1, Writer);
    StarUnfolded(f, p, r);
    if s.ending == Done {
      CompareStarred(f, p + 1, r, s);
    } else {
      WriterStops(f, p + 1);
      WalkStops(f, p, Writer, s);
    }
  }

  lemma {:induction false} WriterStops(f: string, p: nat)
    requires p <= |f| && DotStar(f, WidthEnd(f, p))
    requires Specifier(f, p, Parser).ending == Done && Specifier(f, p, Writer).ending != Done
    ensures !StarHarmless(f, p)
  {
    ParserStar(f, p);
    StarConverts(f, p);
  }

  lemma WalkStops(f: string, p: nat, who: Scanner, s: Spec)
    requires p < |f| && f[p] == '%' && s == Specifier(f, p + 1, who) && s.ending != Done
    ensures Walk(f, p, who).ending != Done
  {
  }

  /** The two scanners' conversions after the same stars. */
  lemma ComparePrefixes(k: seq<Kind>, a: seq<Kind>, b: seq<Kind>, w: Scan, r: Scan)
    requires AtLeast(w, r) && r.ending == Done && |a| >= |b|
    ensures AtLeast(Prepend(k + a, w), Prepend(k + b, r))
    ensures Prepend(k + a, w) == Prepend(k + b, r) <==> a == b && w == r
  {
    if a == b {
      SamePrefix(k + a, w, r);
    } else {
      assert (k + a)[|k|..] == a && (k + b)[|k|..] == b;
      DifferentPrefix(k + a, k + b, w, r);
    }
  }

  /** From any position: never less than the parser fetches, and the same exactly on harmless formats. */
  lemma {:induction false} Compare(f: string, p: nat)
    requires p <= |f| && Walk(f, p, Parser).ending == Done && NothingSwallowed(f, p)
    ensures AtLeast(Walk(f, p, Writer), Walk(f, p, Parser))
    ensures Walk(f, p, Writer) == Walk(f, p, Parser) <==> Harmless(f, p)
    decreases |f| - p, 1
  {
    if p == |f| {
    } else if f[p] != '%' {
      Compare(f, p + 1);
    } else if DotStar(f, WidthEnd(f, p + 1)) {
      CompareStar(f, p);
    } else {
      ComparePlain(f, p);
    }
  }

  /** From a specifier without `.*` on. */
  lemma {:induction false} ComparePlain(f: string, p: nat)
    requires p < |f| && f[p] == '%' && !DotStar(f, WidthEnd(f, p + 1))
    requires Walk(f, p, Parser).ending == Done && NothingSwallowed(f, p)
    ensures AtLeast(Walk(f, p, Writer), Walk(f, p, Parser))
    ensures Walk(f, p, Writer) == Walk(f, p, Parser) <==> Harmless(f, p)
    decreases |f| - p, 0
  {
    var one := Specifier(f, p + 1, Parser);
    PlainUnfolded(f, p, one);
    SameSpecifier(f, p + 1);
    if f[one.next - 1] == '%' {
      CompareStays(f, p + 1, one.next - 1, one.kinds);
    } else {
      CompareSame(f, p + 1, one);
    }
  }

  lemma PlainUnfolded(f: string, p: nat, one: Spec)
    requires p < |f| && f[p] == '%' && !DotStar(f, WidthEnd(f, p + 1)) && one == Specifier(f, p + 1, Parser)
    requires Walk(f, p, Parser).ending == Done && NothingSwallowed(f, p)
    ensures one.ending == Done && 0 < one.next <= |f|
    ensures Walk(f, one.next, Parser).ending == Done && NothingSwallowed(f, one.next)
    ensures Harmless(f, p) <==> (f[one.next - 1] == '%' ==> Quiet(f, one.next)) && Harmless(f, one.next)
  {
  }

  /** Both scanners read a specifier alike. */
  lemma {:induction false} CompareSame(f: string, p: nat, one: Spec)
    requires 0 < p <= |f| && f[p - 1] == '%' && p < one.next <= |f| && one.ending == Done
    requires Specifier(f, p, Parser) == one && Specifier(f, p, Writer) == one
    requires Walk(f, one.next, Parser).ending == Done && NothingSwallowed(f, one.next)
    ensures AtLeast(Walk(f, p - 1, Writer), Walk(f, p - 1, Parser))
    ensures Walk(f, p - 1, Writer) == Walk(f, p - 1, Parser) <==> Harmless(f, one.next)
    decreases |f| - p, 1
  {
    WalkSpecifier(f, p - 1, Parser, one);
    WalkSpecifier(f, p - 1, Writer, one);
    Compare(f, one.next);
    SamePrefix(one.kinds, Walk(f, one.next, Writer), Walk(f, one.next, Parser));
  }

  /**
   * For every format the parser survives without a swallowed specifier, the writer stores exactly the
   * arguments the parser fetches if and only if the format is harmless.
   */
  lemma Agreement(f: string)
    requires Walk(f, 0, Parser).ending == Done && NothingSwallowed(f, 0)
    ensures Walk(f, 0, Writer) == Walk(f, 0, Parser) <==> Harmless(f, 0)
  {
    Compare(f, 0);
  }

  lemma {:induction false} HarmlessKeeps(f: string, p: nat)
    requires p <= |f| && Walk(f, p, Parser).ending == Done && Harmless(f, p)
    ensures NothingSwallowed(f, p)
    decreases |f| - p
  {
    if p < |f| {
      if f[p] != '%' {
        HarmlessKeeps(f, p + 1);
      } else {
        if Swallows(f, p + 1) { SwallowedTakes(f, p + 1); }
        HarmlessKeeps(f, Specifier(f, p + 1, Parser).next);
      }
    }
  }

  lemma SwallowedTakes(f: string, p: nat)
    requires p <= |f| && Swallows(f, p)
    ensures !StarHarmless(f, p)
  {
    var q := AfterStar(f, p);
    assert Span(f, q, Modifiers) == q;
  }

  /** On every harmless format, without exception, the two scanners agree. */
  lemma HarmlessAgrees(f: string)
    requires Walk(f, 0, Parser).ending == Done && Harmless(f, 0)
    ensures Walk(f, 0, Writer) == Walk(f, 0, Parser)
  {
    HarmlessKeeps(f, 0);
    Agreement(f);
  }

  // ---- Instances ----

  /** The formats `%%d` and `%.*ld`, which the scanners disagree on. */
  lemma PercentDisagrees(f: string)
    requires f == "%%d"
    ensures Walk(f, 0, Writer) == Scan([KInt], Done) && Walk(f, 0, Parser) == Scan([], Done)
  {
    assert Specifier(f, 1, Parser) == Spec([], 2, Done);
    assert Walk(f, 3, Parser) == Walk(f, 3, Writer) == Scan([], Done);
    assert Walk(f, 2, Parser) == Scan([], Done);
    assert Specifier(f, 1, Writer) == Spec([], 1, Done);
    assert Span(f, 2, Flags) == 2 && Span(f, 2, Digits) == 2 && Span(f, 2, Modifiers) == 2;
    assert Specifier(f, 2, Writer) == Spec([KInt], 3, Done);
    assert Walk(f, 1, Writer) == Scan([KInt], Done);
  }

  lemma DotStarDisagrees(f: string)
    requires f == "%.*ld"
    ensures Walk(f, 0, Writer) == Scan([KInt, KInt], Done) && Walk(f, 0, Parser) == Scan([KInt, KLong], Done)
  {
    assert WidthEnd(f, 1) == 1 && !StarWidth(f, 1) && Stars(f, 1) == [KInt];
    assert Span(f, 4, Modifiers) == 4;
    assert Conversion(f, 4, Writer) == Spec([KInt], 5, Done);
    assert Specifier(f, 1, Writer) == Spec([KInt, KInt], 5, Done);
    assert WidthsOf(f, 3, 4) == Widths(false, 1);
    assert Conversion(f, 3, Parser) == Spec([KLong], 5, Done);
    assert Specifier(f, 1, Parser) == Spec([KInt, KLong], 5, Done);
  }

  /** A format with `.*` that is harmless: the skipped `h` changes nothing. */
  lemma DotStarAgrees(f: string)
    requires f == "%.*hd"
    ensures Harmless(f, 0) && Walk(f, 0, Writer) == Walk(f, 0, Parser) == Scan([KInt, KInt], Done)
  {
    assert WidthEnd(f, 1) == 1 && Stars(f, 1) == [KInt] && Span(f, 4, Modifiers) == 4;
    assert WidthsOf(f, 3, 4) == Widths(true, 0);
    assert Conversion(f, 3, Parser) == Spec([KInt], 5, Done);
    assert Specifier(f, 1, Parser) == Spec([KInt, KInt], 5, Done);
    assert TakenFrom(f, 3) == [KInt] && TakenFrom(f, 4) == [KInt];
    HarmlessAgrees(f);
  }

  /** With a swallowed specifier, later ones can make up for what was lost: `%.*%d%.*d%d`, four ints for both. */
  lemma Compensation(f: string)
    requires f == "%.*%d%.*d%d"
    ensures !NothingSwallowed(f, 0) && !Harmless(f, 0)
    ensures Walk(f, 0, Writer) == Walk(f, 0, Parser) == Scan([KInt, KInt, KInt, KInt], Done)
  {
    CompensationParser(f);
    CompensationWriter(f);
  }

  lemma CompensationParser(f: string)
    requires f == "%.*%d%.*d%d"
    ensures !NothingSwallowed(f, 0) && !Harmless(f, 0)
    ensures Walk(f, 0, Parser) == Scan([KInt, KInt, KInt, KInt], Done)
  {
    StarAt(f, 1);
    StarAt(f, 6);
    CompensationSwallows(f);
    PlainConversion(f, 10);
    assert Walk(f, 9, Parser) == Scan([KInt], Done);
    assert Specifier(f, 6, Parser) == Spec([KInt, KInt], 9, Done);
    assert Walk(f, 5, Parser) == Scan([KInt, KInt, KInt], Done);
    assert Specifier(f, 1, Parser) == Spec([KInt], 4, Done);
  }

  lemma {:induction false} CompensationSwallows(f: string)
    requires f == "%.*%d%.*d%d" && Specifier(f, 1, Parser) == Spec([KInt], 4, Done)
    ensures !NothingSwallowed(f, 0) && !Harmless(f, 0)
  {
    StarAt(f, 6);
    assert Swallows(f, 6);
    SwallowedTakes(f, 6);
    assert !NothingSwallowed(f, 5) && !NothingSwallowed(f, 4);
    assert !Harmless(f, 5) && !Harmless(f, 4);
  }

  lemma CompensationWriter(f: string)
    requires f == "%.*%d%.*d%d"
    ensures Walk(f, 0, Writer) == Scan([KInt, KInt, KInt, KInt], Done)
  {
    StarAt(f, 1);
    StarAt(f, 6);
    assert Span(f, 10, Flags) == 10 && Span(f, 10, Digits) == 10 && Span(f, 10, Modifiers) == 10;
    assert Specifier(f, 10, Writer) == Spec([KInt], 11, Done);
    assert Walk(f, 9, Writer) == Scan([KInt], Done);
    assert Span(f, 9, Modifiers) == 9;
    assert Specifier(f, 6, Writer) == Spec([KInt], 9, Done);
    assert Walk(f, 5, Writer) == Scan([KInt, KInt], Done);
    assert Span(f, 4, Modifiers) == 4;
    assert Specifier(f, 1, Writer) == Spec([KInt, KInt], 5, Done);
  }

  lemma StarAt(f: string, p: nat)
    requires p + 1 < |f| && f[p] == '.' && f[p + 1] == '*'
    ensures Span(f, p, Flags) == p && WidthEnd(f, p) == p && DotStar(f, p) && Stars(f, p) == [KInt]
  {
  }
}

/**
 * The two scanners that walk a printf format: the log writer's, which decides which arguments to
 * store, and the log parser's, which decides which stored arguments to fetch. A format f ends in a
 * terminator at index |f|. Both scanners are total here: they end normally, by aborting, or by
 * running over the terminator.
 */
module BinlogFormat {
  datatype Kind = KInt | KLong | KDouble | KString | KPointer

  /** The writer and the parser differ in two places only. */
  datatype Scanner = Writer | Parser

  datatype Ending = Done | Aborted | Overrun

  /** Which arguments were consumed, in order, and how the scan ended. */
  datatype Scan = Scan(kinds: seq<Kind>, ending: Ending)

  datatype Class = Flags | Digits | Modifiers

  predicate Member(c: char, k: Class) {
    match k
    case Flags => c == '-' || c == '+' || c == ' ' || c == '#' || c == '0'
    case Digits => '0' <= c <= '9'
    case Modifiers => c == 'h' || c == 'l' || c == 'L'
  }

  predicate IsInteger(c: char) {
    c == 'd' || c == 'i' || c == 'o' || c == 'u' || c == 'x' || c == 'X' || c == 'c'
  }

  predicate IsFloat(c: char) { c == 'f' || c == 'e' || c == 'E' || c == 'g' || c == 'G' }

  predicate Converts(c: char) { IsInteger(c) || IsFloat(c) || c == 's' || c == 'p' || c == '%' }

  predicate IsAt(f: string, p: nat, c: char) { p < |f| && f[p] == c }

  /** Past the characters of a class that start at p. */
  function Span(f: string, p: nat, k: Class): (e: nat)
    requires p <= |f|
    ensures p <= e <= |f|
    decreases |f| - p
  {
    if p == |f| || !Member(f[p], k) then p else Span(f, p + 1, k)
  }

  /** short_width and wide_width */
  datatype Widths = Widths(short: bool, wide: nat)

  /** The switch over the modifiers of f[p..m]. */
  function WidthsOf(f: string, p: nat, m: nat): (w: Widths)
    requires p <= m <= |f|
    decreases m - p
  {
    if p == m then Widths(false, 0) else
      var w := WidthsOf(f, p, m - 1);
      match f[m - 1]
      case 'h' => w.(short := true)
      case 'l' => w.(wide := w.wide + 1)
      case _ => w.(wide := 2)
  }

  /** The argument a conversion takes; `%` takes none. */
  function Taken(conv: char, short: bool, wide: nat): (k: seq<Kind>) {
    if IsInteger(conv) then (if short || wide == 0 then [KInt] else [KLong])
    else if IsFloat(conv) then [KDouble]
    else if conv == 's' then [KString]
    else if conv == 'p' then [KPointer]
    else []
  }

  predicate StarWidth(f: string, p: nat)
    requires p <= |f|
  {
    IsAt(f, Span(f, p, Flags), '*')
  }

  /** Flags, then a star or a decimal width. */
  function WidthEnd(f: string, p: nat): (e: nat)
    requires p <= |f|
    ensures p <= e <= |f|
  {
    var a := Span(f, p, Flags);
    if IsAt(f, a, '*') then a + 1 else Span(f, a, Digits)
  }

  predicate DotStar(f: string, p: nat) { IsAt(f, p, '.') && IsAt(f, p + 1, '*') }

  /** A precision given in digits, if there is one. */
  function Dotted(f: string, p: nat): (e: nat)
    requires p <= |f|
    ensures p <= e <= |f|
  {
    if IsAt(f, p, '.') then Span(f, p + 1, Digits) else p
  }

  /** Past the precision; the writer steps over `.*` with one character more. */
  function PrecisionEnd(f: string, p: nat, who: Scanner): (e: nat)
    requires p <= |f|
    ensures p <= e
  {
    var w := WidthEnd(f, p);
    if !DotStar(f, w) then Dotted(f, w)
    else if who == Writer then w + 3 else w + 2
  }

  /** The arguments taken by stars. */
  function Stars(f: string, p: nat): (k: seq<Kind>)
    requires p <= |f|
  {
    (if StarWidth(f, p) then [KInt] else []) + (if DotStar(f, WidthEnd(f, p)) then [KInt] else [])
  }

  /** One specifier, from the character after its `%`: what it consumed and where the cursor is left. */
  datatype Spec = Spec(kinds: seq<Kind>, next: nat, ending: Ending)

  function Conversion(f: string, q: nat, who: Scanner): (r: Spec)
    requires q <= |f|
    ensures r.ending == Done ==> q <= r.next <= |f|
  {
    var m := Span(f, q, Modifiers);
    if m == |f| || !Converts(f[m]) then Spec([], m, Aborted) else
      var w := WidthsOf(f, q, m);
      Spec(Taken(f[m], w.short, w.wide), if who == Writer && f[m] == '%' then m else m + 1, Done)
  }

  function Specifier(f: string, p: nat, who: Scanner): (r: Spec)
    requires p <= |f|
    ensures r.ending == Done ==> p <= r.next <= |f|
  {
    if Span(f, p, Flags) == |f| then Spec([], |f|, Overrun) else
      var q := PrecisionEnd(f, p, who);
      if q > |f| then Spec(Stars(f, p), |f|, Overrun) else
        var c := Conversion(f, q, who);
        Spec(Stars(f, p) + c.kinds, c.next, c.ending)
  }

  /** A whole format, from p. */
  function Walk(f: string, p: nat, who: Scanner): (r: Scan)
    requires p <= |f|
    decreases |f| - p
  {
    if p == |f| then Scan([], Done)
    else if f[p] != '%' then Walk(f, p + 1, who)
    else
      var one := Specifier(f, p + 1, who);
      if one.ending != Done then Scan(one.kinds, one.ending) else
        var more := Walk(f, one.next, who);
        Scan(one.kinds + more.kinds, more.ending)
  }

  function Prepend(k: seq<Kind>, r: Scan): (s: Scan) { Scan(k + r.kinds, r.ending) }

  lemma WalkSpecifier(f: string, p: nat, who: Scanner, one: Spec)
    requires p < |f| && f[p] == '%' && one == Specifier(f, p + 1, who) && one.ending == Done
    ensures Walk(f, p, who) == Prepend(one.kinds, Walk(f, one.next, who))
  {
  }
}

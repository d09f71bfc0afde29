/** The log parser: a cursor over one record's bytes, the scanner that reads it, and the walk over a log. */
module BinlogParser {
  import opened Options
  import opened Windows
  import opened Bytes
  import opened BinlogFormat
  import opened BinlogRecord
  import opened BinlogWriter

  /** The arguments of one record, read in order; buf starts at the record and may go on after it. */
  class VaList {
    const buf: seq<Byte>
    const len: nat
    var off: nat

    constructor (buf: seq<Byte>, len: nat, off: nat)
      ensures this.buf == buf && this.len == len && this.off == off
    {
      this.buf, this.len, this.off := buf, len, off;
    }

    /** get_int, get_long, get_double, get_string and get_pointer; not ok where they assert. */
    method Get(k: Kind) returns (ok: bool, a: Arg)
      requires len <= |buf|
      modifies this`off
      ensures ok == Fetch(k, buf, old(off), len).Some?
      ensures ok ==> Fetch(k, buf, old(off), len) == Some(Fetched(a, off))
    {
      a := IntArg(0);
      if off + 1 > len { return false, a; }
      var n := if k == KInt then 4 else 8;
      if k == KString {
        n := CountChars(buf, off + 1);
        n := n + 1;
      }
      assert n == Size(k, buf[off + 1..]);
      if off + 1 + n > len || buf[off] != Tag(k) { return false, a; }
      off := off + 1;
      a := Interpret(k, buf[off..off + (if k == KString then n - 1 else n)]);
      off := off + n;
      ok := true;
    }
  }

  /** strlen; without a terminator, the number of bytes there are. */
  method CountChars(b: seq<Byte>, p: nat) returns (n: nat)
    requires p <= |b|
    ensures n == StrLen(b[p..])
  {
    n := 0;
    while p + n < |b| && b[p + n] != 0
      invariant p + n <= |b| && StrLen(b[p..]) == n + StrLen(b[p + n..])
    {
      assert b[p + n..][1..] == b[p + n + 1..];
      n := n + 1;
    }
  }

  /** What is fetched later comes after vs. */
  function Join(vs: seq<Arg>, later: Option<FetchedAll>): (r: Option<FetchedAll>) {
    if later.None? then None else Some(FetchedAll(vs + later.value.args, later.value.next))
  }

  lemma Associates(a: Arg, x: seq<Arg>, y: seq<Arg>)
    ensures [a] + (x + y) == ([a] + x) + y && [a] + [] == [a]
  {
  }

  lemma {:induction false} FetchSplit(x: seq<Kind>, y: seq<Kind>, b: seq<Byte>, p: nat, len: nat)
    requires len <= |b|
    ensures FetchAll(x + y, b, p, len) ==
            var first := FetchAll(x, b, p, len);
            if first.None? then None else Join(first.value.args, FetchAll(y, b, first.value.next, len))
  {
    if x == [] {
      assert x + y == y;
      var later := FetchAll(y, b, p, len);
      if later.Some? { assert [] + later.value.args == later.value.args; }
    } else {
      assert (x + y)[0] == x[0] && (x + y)[1..] == x[1..] + y;
      var one := Fetch(x[0], b, p, len);
      if one.Some? {
        FetchSplit(x[1..], y, b, one.value.next, len);
        var first := FetchAll(x[1..], b, one.value.next, len);
        if first.Some? {
          var later := FetchAll(y, b, first.value.next, len);
          if later.Some? {
            Associates(one.value.arg, first.value.args, later.value.args);
          }
        }
      }
    }
  }

  /** Reading the kinds done from off0 has given vs and left the cursor here; or it has failed. */
  ghost predicate Got(v: VaList, off0: nat, done: seq<Kind>, vs: seq<Arg>, ok: bool)
    reads v
  {
    var inside := v.len <= |v.buf|;
    var read := inside && (if ok then FetchAll(done, v.buf, off0, v.len) == Some(FetchedAll(vs, v.off))
                           else FetchAll(done, v.buf, off0, v.len).None?);
    read
  }

  lemma FetchOne(k: Kind, b: seq<Byte>, p: nat, len: nat)
    requires len <= |b|
    ensures FetchAll([k], b, p, len) ==
            var one := Fetch(k, b, p, len);
            if one.None? then None else Some(FetchedAll([one.value.arg], one.value.next))
  {
    assert [k][1..] == [];
    var one := Fetch(k, b, p, len);
    if one.Some? { Associates(one.value.arg, [], []); }
  }

  method Next(v: VaList, ghost off0: nat, ghost done: seq<Kind>, vs: seq<Arg>, k: Kind)
      returns (ok: bool, vs': seq<Arg>)
    requires Got(v, off0, done, vs, true)
    modifies v`off
    ensures Got(v, off0, done + [k], vs', ok)
  {
    FetchSplit(done, [k], v.buf, off0, v.len);
    FetchOne(k, v.buf, v.off, v.len);
    var a: Arg;
    ok, a := v.Get(k);
    vs' := vs + [a];
  }

  /** Once reading has failed, what would have come next changes nothing. */
  lemma StillFailed(v: VaList, off0: nat, done: seq<Kind>, more: seq<Kind>, vs: seq<Arg>)
    requires Got(v, off0, done, vs, false)
    ensures Got(v, off0, done + more, vs, false)
  {
    FetchSplit(done, more, v.buf, off0, v.len);
  }

  function WidthStar(f: string, p: nat): (k: seq<Kind>)
    requires p <= |f|
  {
    if StarWidth(f, p) then [KInt] else []
  }

  function PrecisionStar(f: string, w: nat): (k: seq<Kind>) { if DotStar(f, w) then [KInt] else [] }

  method ReadWidth(v: VaList, ghost off0: nat, ghost done: seq<Kind>, f: string, p: nat, vs: seq<Arg>)
    returns (w: nat, ok: bool, vs': seq<Arg>)
    requires p <= |f| && Span(f, p, Flags) < |f| && Got(v, off0, done, vs, true)
    modifies v`off
    ensures w == WidthEnd(f, p) && Got(v, off0, done + WidthStar(f, p), vs', ok)
  {
    var e := SkipClass(f, p, Flags);
    if f[e] == '*' {
      ok, vs' := Next(v, off0, done, vs, KInt);
      w := e + 1;
    } else {
      assert done + [] == done;
      ok, vs' := true, vs;
      w := SkipClass(f, e, Digits);
    }
  }

  method ReadPrecision(v: VaList, ghost off0: nat, ghost done: seq<Kind>, f: string, ghost p: nat, w: nat, vs: seq<Arg>)
    returns (q: nat, ok: bool, vs': seq<Arg>)
    requires p <= |f| && w == WidthEnd(f, p) && Got(v, off0, done, vs, true)
    modifies v`off
    ensures q == PrecisionEnd(f, p, Parser) && Got(v, off0, done + PrecisionStar(f, w), vs', ok)
  {
    q, ok, vs' := w, true, vs;
    assert done + [] == done;
    if w < |f| && f[w] == '.' {
      q := q + 1;
      if q < |f| && f[q] == '*' {
        ok, vs' := Next(v, off0, done, vs, KInt);
        q := q + 1;
      } else {
        q := SkipClass(f, q, Digits);
      }
    }
  }

  method ReadConversion(v: VaList, ghost off0: nat, ghost done: seq<Kind>, f: string, q: nat, vs: seq<Arg>)
    returns (next: nat, ending: Ending, ok: bool, vs': seq<Arg>)
    requires q <= |f| && Got(v, off0, done, vs, true)
    modifies v`off
    ensures next == Conversion(f, q, Parser).next && ending == Conversion(f, q, Parser).ending
    ensures Got(v, off0, done + Conversion(f, q, Parser).kinds, vs', ok)
  {
    var m, short, wide := SkipModifiers(f, q);
    next, ending, ok, vs' := m, Aborted, true, vs;
    assert done + [] == done;
    if m < |f| && Converts(f[m]) {
      ending := Done;
      next := m + 1;
      if f[m] != '%' {
        var k := Taken(f[m], short, wide);
        assert k == [k[0]];
        ok, vs' := Next(v, off0, done, vs, k[0]);
      }
    }
  }

  lemma Kinds3(a: seq<Kind>, b: seq<Kind>, c: seq<Kind>, d: seq<Kind>)
    ensures a + b + c == a + (b + c) && a + b + c + d == a + (b + c + d)
  {
  }

  /** The kinds of a specifier, part by part. */
  lemma SpecifierKinds(f: string, p: nat)
    requires p <= |f| && Span(f, p, Flags) < |f| && PrecisionEnd(f, p, Parser) <= |f|
    ensures Specifier(f, p, Parser).kinds
         == WidthStar(f, p) + PrecisionStar(f, WidthEnd(f, p)) + Conversion(f, PrecisionEnd(f, p, Parser), Parser).kinds
  {
  }

  lemma ParserStaysInside(f: string, p: nat)
    requires p <= |f|
    ensures PrecisionEnd(f, p, Parser) <= |f|
  {
  }

  /** One specifier, from the character after its `%`. */
  method ReadSpecifier(v: VaList, ghost off0: nat, ghost done: seq<Kind>, f: string, p: nat, vs: seq<Arg>)
    returns (next: nat, ending: Ending, ok: bool, vs': seq<Arg>)
    requires p <= |f| && Got(v, off0, done, vs, true)
    modifies v`off
    ensures ok ==> ending == Specifier(f, p, Parser).ending && (ending == Done ==> next == Specifier(f, p, Parser).next)
    ensures Got(v, off0, done + Specifier(f, p, Parser).kinds, vs', ok)
  {
    var e := SkipClass(f, p, Flags);
    next, ending, ok, vs' := |f|, Overrun, true, vs;
    assert done + [] == done;
    if e < |f| {
      ParserStaysInside(f, p);
      SpecifierKinds(f, p);
      ghost var a, b, c :=
        WidthStar(f, p), PrecisionStar(f, WidthEnd(f, p)), Conversion(f, PrecisionEnd(f, p, Parser), Parser).kinds;
      Kinds3(done, a, b, c);
      var w, q: nat;
      w, ok, vs' := ReadWidth(v, off0, done, f, p, vs);
      if !ok {
        StillFailed(v, off0, done + a, b + c, vs');
        Kinds3(done + a, b, c, []);
        return;
      }
      q, ok, vs' := ReadPrecision(v, off0, done + a, f, p, w, vs');
      if !ok {
        StillFailed(v, off0, done + a + b, c, vs');
        return;
      }
      next, ending, ok, vs' := ReadConversion(v, off0, done + a + b, f, q, vs');
    }
  }

  /** Where the scan is: the kinds done and those to come are the whole format's. */
  ghost predicate Midway(f: string, p: nat, done: seq<Kind>, whole: Scan) {
    var all := p <= |f| && whole == Scan(done + Walk(f, p, Parser).kinds, Walk(f, p, Parser).ending);
    all
  }

  lemma MidwayText(f: string, p: nat, done: seq<Kind>, whole: Scan)
    requires p < |f| && f[p] != '%' && Midway(f, p, done, whole)
    ensures Midway(f, p + 1, done, whole)
  {
  }

  lemma MidwaySpecifier(f: string, p: nat, one: Spec, done: seq<Kind>, whole: Scan)
    requires p < |f| && f[p] == '%' && one == Specifier(f, p + 1, Parser) && Midway(f, p, done, whole)
    ensures one.ending == Done ==> Midway(f, one.next, done + one.kinds, whole)
    ensures one.ending != Done ==> whole == Scan(done + one.kinds, one.ending)
    ensures exists rest :: whole.kinds == done + one.kinds + rest
  {
    if one.ending == Done {
      var rest := Walk(f, one.next, Parser).kinds;
      Kinds3(done, one.kinds, rest, []);
      assert whole.kinds == done + one.kinds + rest;
    } else {
      assert whole.kinds == done + one.kinds + [];
    }
  }

  /** How reading a record's arguments ended; Corrupt is where the parser asserts. */
  datatype Outcome = Ended(ending: Ending) | Corrupt

  /** The state between two rounds of the loop, or after the last. */
  ghost predicate Reading(v: VaList, off0: nat, f: string, p: nat, done: seq<Kind>, whole: Scan, vs: seq<Arg>,
      out: Outcome)
    reads v
  {
    var going := out == Ended(Done) && Midway(f, p, done, whole) && Got(v, off0, done, vs, true);
    var stopped := out.Ended? && out.ending != Done && out.ending == whole.ending
      && Got(v, off0, whole.kinds, vs, true);
    var failed := out.Corrupt? && Got(v, off0, whole.kinds, vs, false);
    var all := going || stopped || failed;
    all
  }

  method ReadStep(v: VaList, ghost off0: nat, f: string, p: nat, ghost done: seq<Kind>, ghost whole: Scan, vs: seq<Arg>)
    returns (next: nat, ghost done': seq<Kind>, vs': seq<Arg>, out: Outcome)
    requires p < |f| && Midway(f, p, done, whole) && Got(v, off0, done, vs, true)
    modifies v`off
    ensures Reading(v, off0, f, next, done', whole, vs', out) && (out == Ended(Done) ==> p < next <= |f|)
  {
    if f[p] != '%' {
      MidwayText(f, p, done, whole);
      next, done', vs', out := p + 1, done, vs, Ended(Done);
    } else {
      ghost var one := Specifier(f, p + 1, Parser);
      MidwaySpecifier(f, p, one, done, whole);
      var ending: Ending, ok: bool;
      next, ending, ok, vs' := ReadSpecifier(v, off0, done, f, p + 1, vs);
      done' := done + one.kinds;
      out := if ok then Ended(ending) else Corrupt;
      if !ok {
        ghost var rest :| whole.kinds == done' + rest;
        StillFailed(v, off0, done', rest, vs');
      }
    }
  }

  /**
   * print_format: reads from the record exactly the arguments the format asks for. The result is the
   * values handed to fprintf, in order.
   */
  method PrintFormat(v: VaList, f: string) returns (values: seq<Arg>, out: Outcome)
    requires v.len <= |v.buf|
    modifies v`off
    ensures var all := FetchAll(Walk(f, 0, Parser).kinds, v.buf, old(v.off), v.len);
      if all.None? then out == Corrupt
      else out == Ended(Walk(f, 0, Parser).ending) && all == Some(FetchedAll(values, v.off))
  {
    ghost var off0, whole, done := v.off, Walk(f, 0, Parser), [];
    var p: nat := 0;
    values, out := [], Ended(Done);
    assert whole == Scan([] + whole.kinds, whole.ending);
    while p < |f| && out == Ended(Done)
      invariant Reading(v, off0, f, p, done, whole, values, out) && (out == Ended(Done) ==> p <= |f|)
      decreases out == Ended(Done), |f| - p
    {
      p, done, values, out := ReadStep(v, off0, f, p, done, whole, values);
    }
    if out == Ended(Done) { assert done + [] == done; }
  }

  /**
   * print_format where arguments and an end tag stand: it hands out the first arguments if their types are
   * those the format asks for, and refuses the record at the first type that differs or is missing.
   */
  method PrintStored(v: VaList, f: string, ghost args: seq<Arg>) returns (values: seq<Arg>, out: Outcome)
    requires ValidArgs(args) && Stands(v.buf, v.off, EncodeAll(args)) && v.off + |EncodeAll(args)| < v.len <= |v.buf|
    requires v.buf[v.off + |EncodeAll(args)|] == EndTag
    modifies v`off
    ensures var asked := Walk(f, 0, Parser);
      if asked.kinds <= KindsOf(args)
      then out == Ended(asked.ending) && values == args[..|asked.kinds|] && v.off == old(v.off) + |EncodeAll(values)|
      else out == Corrupt
  {
    FetchExact(args, Walk(f, 0, Parser).kinds, v.buf, v.off, v.len);
    values, out := PrintFormat(v, f);
  }
}

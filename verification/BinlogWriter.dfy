/** The log writer: a growing buffer, the scanner that fills it and the assembly of one record. */
module BinlogWriter {
  import opened Bytes
  import opened BinlogFormat
  import opened BinlogRecord

  const StackSize := 1024

  /** Up to this length, doubling the buffer stays within its 32-bit sizes. */
  const MaxRecord := 0x4000_0000

  const IntMax := 0x7fff_ffff

  /** The thread's buffer: on the stack while it has the stack size, on the heap afterwards. */
  class Buffer {
    var buf: array<Byte>
    var size: int
    var offset: int

    ghost predicate Valid()
      reads this
    {
      size == buf.Length && 0 <= offset <= size && StackSize <= size <= 2 * offset + StackSize
    }

    ghost function Contents(): (s: seq<Byte>)
      requires Valid()
      reads this, buf
    {
      buf[..offset]
    }

    constructor (stack: array<Byte>)
      requires stack.Length == StackSize
      ensures Valid() && buf == stack && offset == 0 && Contents() == []
    {
      buf := stack;
      size := StackSize;
      offset := 0;
    }

    /** Keeps what was written and makes room for n more bytes; no size leaves the 32-bit range. */
    method MaybeRealloc(n: int)
      requires Valid() && 0 <= n && offset + n <= MaxRecord
      modifies this
      ensures offset == old(offset) && offset + n <= size == buf.Length
      ensures StackSize <= size <= 2 * (offset + n) + StackSize
      ensures buf == old(buf) || fresh(buf)
      ensures buf[..offset] == old(Contents())
    {
      if offset + n > size {
        // In the source, `- 1 / BINLOG_STACK_SIZE` is an integer division that yields zero.
        var want := offset + n + StackSize - 1 / StackSize;
        assert 2 * size <= IntMax && want <= IntMax;
        if size == StackSize {
          var alloc := if 2 * StackSize > want then 2 * StackSize else want;
          var bigger := new Byte[alloc];
          forall i | 0 <= i < StackSize { bigger[i] := buf[i]; }
          size := alloc;
          buf := bigger;
        } else {
          var alloc := if 2 * size > want then 2 * size else want;
          var bigger := new Byte[alloc];
          forall i | 0 <= i < size { bigger[i] := buf[i]; }
          buf := bigger;
          size := alloc;
        }
      }
    }

    /** A store of consecutive bytes at the cursor. */
    method Store(bytes: seq<Byte>)
      requires size == buf.Length && 0 <= offset && offset + |bytes| <= size
      modifies this`offset, buf
      ensures offset == old(offset) + |bytes|
      ensures buf[..offset] == old(buf[..offset]) + bytes
    {
      forall i | 0 <= i < |bytes| { buf[offset + i] := bytes[i]; }
      offset := offset + |bytes|;
    }

    /** The record prefix is stored without asking for room: it must fit the stack buffer. */
    method PrintBegin(prefix: seq<Byte>) returns (result: int)
      requires Valid() && offset == 0 && 1 + |prefix| <= StackSize
      modifies this`offset, buf
      ensures Valid() && Contents() == [BeginTag] + prefix && result == |prefix| + 1
    {
      Store([BeginTag]);
      Store(prefix);
      result := |prefix| + 1;
    }

    /** Patches the length after the begin tag and closes the record. */
    method PrintEnd(len: int) returns (record: seq<Byte>)
      requires Valid() && 5 <= offset < MaxRecord
      modifies this, buf
      ensures record == old(Contents()[..1]) + Image(len, 4) + old(Contents()[5..]) + [EndTag]
    {
      ghost var before := Contents();
      MaybeRealloc(1);
      assert buf[..offset] == before;
      var field := Image(len, 4);
      forall i | 0 <= i < 4 { buf[1 + i] := field[i]; }
      assert buf[..offset] == before[..1] + field + before[5..];
      Store([EndTag]);
      record := buf[..offset];
    }

    /** One argument with its tag: print_int, print_long, print_double, print_string and print_pointer. */
    method PrintArg(k: Kind, a: Arg) returns (result: int)
      requires KindOf(a) == k
      requires Valid() && offset + |Encode(a)| <= MaxRecord
      modifies this, buf
      ensures Valid() && (buf == old(buf) || fresh(buf))
      ensures Contents() == old(Contents()) + Encode(a)
      ensures result == |Encode(a)|
    {
      result := 1 + |Payload(a)|;
      MaybeRealloc(result);
      ghost var before := buf[..offset];
      Store([Tag(k)]);
      Store(Payload(a));
      assert buf[..offset] == before + Encode(a);
    }
  }

  method SkipClass(f: string, p: nat, k: Class) returns (e: nat)
    requires p <= |f|
    ensures e == Span(f, p, k)
  {
    e := p;
    while e < |f| && Member(f[e], k)
      invariant p <= e <= |f| && Span(f, p, k) == Span(f, e, k)
    {
      e := e + 1;
    }
  }

  /** The modifier loop with its counters. */
  method SkipModifiers(f: string, p: nat) returns (m: nat, short: bool, wide: nat)
    requires p <= |f|
    ensures m == Span(f, p, Modifiers) && Widths(short, wide) == WidthsOf(f, p, m)
  {
    m, short, wide := p, false, 0;
    while m < |f| && Member(f[m], Modifiers)
      invariant p <= m <= |f| && Span(f, p, Modifiers) == Span(f, m, Modifiers)
      invariant Widths(short, wide) == WidthsOf(f, p, m)
    {
      match f[m] {
        case 'h' => short := true;
        case 'l' => wide := wide + 1;
        case _ => wide := 2;
      }
      m := m + 1;
    }
  }

  /** The arguments from index a on are of the kinds a scan will ask for. */
  ghost predicate Supplied(ks: seq<Kind>, args: seq<Arg>, a: nat) {
    a + |ks| <= |args| && forall i :: 0 <= i < |ks| ==> KindOf(args[a + i]) == ks[i]
  }

  /** The first a of n arguments have been stored after base, total bytes in all, with room for all n. */
  ghost predicate Stored(b: Buffer, base: seq<Byte>, args: seq<Arg>, a: nat, n: nat, total: int)
    reads b, b.buf
  {
    var stored := b.Valid() && a <= n <= |args| && b.Contents() == base + EncodeAll(args[..a]);
    var room := n <= |args| && |base| + |EncodeAll(args[..n])| <= MaxRecord;
    var counted := a <= |args| && total == |EncodeAll(args[..a])|;
    var all := stored && room && counted;
    all
  }

  lemma NextFits(base: seq<Byte>, args: seq<Arg>, a: nat, n: nat)
    requires a < n <= |args|
    ensures |EncodeAll(args[..a])| + |Encode(args[a])| <= |EncodeAll(args[..n])|
    ensures base + EncodeAll(args[..a]) + Encode(args[a]) == base + EncodeAll(args[..a + 1])
    ensures |EncodeAll(args[..a + 1])| == |EncodeAll(args[..a])| + |Encode(args[a])|
  {
    EncodeNext(args, a);
    EncodePrefix(args, a + 1, n);
    var x, y := EncodeAll(args[..a]), Encode(args[a]);
    assert base + x + y == base + (x + y);
  }

  /** Fetching the next argument as a value of kind k and storing it. */
  method Take(b: Buffer, ghost base: seq<Byte>, args: seq<Arg>, a: nat, ghost n: nat, total: int, k: Kind)
    returns (total': int)
    requires Stored(b, base, args, a, n, total) && a < n && KindOf(args[a]) == k
    modifies b, b.buf
    ensures Stored(b, base, args, a + 1, n, total') && (b.buf == old(b.buf) || fresh(b.buf))
  {
    NextFits(base, args, a, n);
    var result := b.PrintArg(k, args[a]);
    total' := total + result;
  }

  /** The kinds still to come fit what is left of the n arguments. */
  ghost predicate Coming(ks: seq<Kind>, args: seq<Arg>, a: nat, n: nat) {
    var fits := a + |ks| <= n;
    var kinds := Supplied(ks, args, a);
    var all := fits && kinds;
    all
  }

  /** A star or a decimal width, after the flags. */
  method DoWidth(b: Buffer, ghost base: seq<Byte>, f: string, p: nat, args: seq<Arg>, a: nat, ghost n: nat, total: int)
    returns (w: nat, a': nat, total': int)
    requires p <= |f| && Span(f, p, Flags) < |f| && Stored(b, base, args, a, n, total)
    requires StarWidth(f, p) ==> Coming([KInt], args, a, n)
    modifies b, b.buf
    ensures w == WidthEnd(f, p) && a' == a + (if StarWidth(f, p) then 1 else 0)
    ensures Stored(b, base, args, a', n, total') && (b.buf == old(b.buf) || fresh(b.buf))
  {
    var e := SkipClass(f, p, Flags);
    a', total' := a, total;
    if f[e] == '*' {
      assert [KInt][0] == KInt;
      total' := Take(b, base, args, a, n, total, KInt);
      w, a' := e + 1, a + 1;
    } else {
      w := SkipClass(f, e, Digits);
    }
  }

  /** A precision, if there is one; a star is stepped over twice. */
  method DoPrecision(b: Buffer, ghost base: seq<Byte>, f: string, ghost p: nat, w: nat, args: seq<Arg>, a: nat,
      ghost n: nat, total: int)
    returns (q: nat, a': nat, total': int)
    requires p <= |f| && w == WidthEnd(f, p) && Stored(b, base, args, a, n, total)
    requires DotStar(f, w) ==> Coming([KInt], args, a, n)
    modifies b, b.buf
    ensures q == PrecisionEnd(f, p, Writer) && a' == a + (if DotStar(f, w) then 1 else 0)
    ensures Stored(b, base, args, a', n, total') && (b.buf == old(b.buf) || fresh(b.buf))
  {
    q, a', total' := w, a, total;
    if w < |f| && f[w] == '.' {
      q := q + 1;
      if q < |f| && f[q] == '*' {
        assert [KInt][0] == KInt;
        total' := Take(b, base, args, a, n, total, KInt);
        q, a' := q + 1, a + 1;
        q := q + 1;
      } else {
        q := SkipClass(f, q, Digits);
      }
    }
  }

  /** The modifiers and the conversion character. */
  method DoConversion(b: Buffer, ghost base: seq<Byte>, f: string, q: nat, args: seq<Arg>, a: nat, ghost n: nat,
      total: int)
    returns (next: nat, ending: Ending, a': nat, total': int)
    requires q <= |f| && Stored(b, base, args, a, n, total)
    requires Coming(Conversion(f, q, Writer).kinds, args, a, n)
    modifies b, b.buf
    ensures next == Conversion(f, q, Writer).next && ending == Conversion(f, q, Writer).ending
    ensures a' == a + |Conversion(f, q, Writer).kinds|
    ensures Stored(b, base, args, a', n, total') && (b.buf == old(b.buf) || fresh(b.buf))
  {
    var m, short, wide := SkipModifiers(f, q);
    next, ending, a', total' := m, Aborted, a, total;
    if m < |f| && Converts(f[m]) {
      ending := Done;
      if f[m] != '%' {
        var k := Taken(f[m], short, wide);
        assert Conversion(f, q, Writer).kinds == k && |k| == 1;
        total' := Take(b, base, args, a, n, total, k[0]);
        next, a' := m + 1, a + 1;
      }
    }
  }

  lemma ComingSplit(x: seq<Kind>, y: seq<Kind>, args: seq<Arg>, a: nat, n: nat)
    requires Coming(x + y, args, a, n)
    ensures Coming(x, args, a, n) && Coming(y, args, a + |x|, n)
  {
    forall i | 0 <= i < |x| ensures KindOf(args[a + i]) == x[i] { assert (x + y)[i] == x[i]; }
    forall i | 0 <= i < |y| ensures KindOf(args[a + |x| + i]) == y[i] { assert (x + y)[|x| + i] == y[i]; }
  }

  function StarCount(f: string, p: nat): (c: nat)
    requires p <= |f|
  {
    if StarWidth(f, p) then 1 else 0
  }

  lemma StarsComing(f: string, p: nat, args: seq<Arg>, a: nat, n: nat)
    requires p <= |f| && Coming(Stars(f, p), args, a, n)
    ensures StarWidth(f, p) ==> Coming([KInt], args, a, n)
    ensures DotStar(f, WidthEnd(f, p)) ==> Coming([KInt], args, a + StarCount(f, p), n)
    ensures |Stars(f, p)| == StarCount(f, p) + (if DotStar(f, WidthEnd(f, p)) then 1 else 0)
  {
    var s1 := if StarWidth(f, p) then [KInt] else [];
    var s2 := if DotStar(f, WidthEnd(f, p)) then [KInt] else [];
    assert Stars(f, p) == s1 + s2;
    ComingSplit(s1, s2, args, a, n);
  }

  lemma PartsComing(f: string, p: nat, q: nat, args: seq<Arg>, a: nat, n: nat)
    requires p <= |f| && Span(f, p, Flags) < |f| && q == PrecisionEnd(f, p, Writer)
    requires Coming(Specifier(f, p, Writer).kinds, args, a, n)
    ensures Coming(Stars(f, p), args, a, n)
    ensures q <= |f| ==> Coming(Conversion(f, q, Writer).kinds, args, a + |Stars(f, p)|, n)
    ensures q <= |f| ==> |Specifier(f, p, Writer).kinds| == |Stars(f, p)| + |Conversion(f, q, Writer).kinds|
  {
    if q <= |f| {
      ComingSplit(Stars(f, p), Conversion(f, q, Writer).kinds, args, a, n);
    }
  }

  /** One specifier, from the character after its `%`. */
  method DoSpecifier(b: Buffer, ghost base: seq<Byte>, f: string, p: nat, args: seq<Arg>, a: nat, ghost n: nat,
      total: int)
    returns (next: nat, ending: Ending, a': nat, total': int)
    requires p <= |f| && Stored(b, base, args, a, n, total)
    requires Coming(Specifier(f, p, Writer).kinds, args, a, n)
    modifies b, b.buf
    ensures ending == Specifier(f, p, Writer).ending && (ending == Done ==> next == Specifier(f, p, Writer).next)
    ensures a' == a + |Specifier(f, p, Writer).kinds|
    ensures Stored(b, base, args, a', n, total') && (b.buf == old(b.buf) || fresh(b.buf))
  {
    var e := SkipClass(f, p, Flags);
    next, ending, a', total' := |f|, Overrun, a, total;
    if e < |f| {
      PartsComing(f, p, PrecisionEnd(f, p, Writer), args, a, n);
      StarsComing(f, p, args, a, n);
      var w, q: nat;
      w, a', total' := DoWidth(b, base, f, p, args, a, n, total);
      q, a', total' := DoPrecision(b, base, f, p, w, args, a', n, total');
      if q <= |f| {
        next, ending, a', total' := DoConversion(b, base, f, q, args, a', n, total');
      }
    }
  }

  lemma WalkComing(f: string, p: nat, one: Spec, args: seq<Arg>, a: nat, n: nat)
    requires p < |f| && f[p] == '%' && one == Specifier(f, p + 1, Writer)
    requires Coming(Walk(f, p, Writer).kinds, args, a, n)
    ensures Coming(one.kinds, args, a, n)
    ensures one.ending != Done ==> Walk(f, p, Writer) == Scan(one.kinds, one.ending)
    ensures one.ending == Done ==> var more := Walk(f, one.next, Writer);
      Walk(f, p, Writer) == Scan(one.kinds + more.kinds, more.ending) && Coming(more.kinds, args, a + |one.kinds|, n)
  {
    if one.ending == Done {
      ComingSplit(one.kinds, Walk(f, one.next, Writer).kinds, args, a, n);
    }
  }

  /** Where the scan is: what is still to come completes the n arguments of the whole format. */
  ghost predicate Underway(f: string, p: nat, args: seq<Arg>, a: nat, whole: Scan) {
    var here := p <= |f| && a + |Walk(f, p, Writer).kinds| == |whole.kinds|;
    var coming := p <= |f| && Coming(Walk(f, p, Writer).kinds, args, a, |whole.kinds|);
    var same := p <= |f| && Walk(f, p, Writer).ending == whole.ending;
    var all := here && coming && same;
    all
  }

  lemma UnderwayText(f: string, p: nat, args: seq<Arg>, a: nat, whole: Scan)
    requires p < |f| && f[p] != '%' && Underway(f, p, args, a, whole)
    ensures Underway(f, p + 1, args, a, whole)
  {
  }

  lemma UnderwaySpecifier(f: string, p: nat, one: Spec, args: seq<Arg>, a: nat, whole: Scan)
    requires p < |f| && f[p] == '%' && one == Specifier(f, p + 1, Writer) && Underway(f, p, args, a, whole)
    ensures Coming(one.kinds, args, a, |whole.kinds|)
    ensures one.ending == Done ==> Underway(f, one.next, args, a + |one.kinds|, whole)
    ensures one.ending != Done ==> a + |one.kinds| == |whole.kinds| && one.ending == whole.ending
  {
    WalkComing(f, p, one, args, a, |whole.kinds|);
  }

  /** One round of the loop over the format: a character of text or a whole specifier. */
  method DoStep(b: Buffer, ghost base: seq<Byte>, f: string, p: nat, args: seq<Arg>, a: nat, ghost whole: Scan,
      total: int)
    returns (next: nat, ending: Ending, a': nat, total': int)
    requires p < |f| && Stored(b, base, args, a, |whole.kinds|, total) && Underway(f, p, args, a, whole)
    modifies b, b.buf
    ensures Stored(b, base, args, a', |whole.kinds|, total') && (b.buf == old(b.buf) || fresh(b.buf))
    ensures ending == Done ==> p < next && Underway(f, next, args, a', whole)
    ensures ending != Done ==> ending == whole.ending && a' == |whole.kinds|
  {
    if f[p] != '%' {
      UnderwayText(f, p, args, a, whole);
      next, ending, a', total' := p + 1, Done, a, total;
    } else {
      ghost var one := Specifier(f, p + 1, Writer);
      UnderwaySpecifier(f, p, one, args, a, whole);
      next, ending, a', total' := DoSpecifier(b, base, f, p + 1, args, a, |whole.kinds|, total);
    }
  }

  lemma Finished(f: string, args: seq<Arg>, a: nat, whole: Scan)
    requires Underway(f, |f|, args, a, whole)
    ensures whole.ending == Done && a == |whole.kinds|
  {
  }

  method DoFormat(b: Buffer, ghost base: seq<Byte>, f: string, args: seq<Arg>, ghost whole: Scan)
      returns (total: int, ending: Ending)
    requires Stored(b, base, args, 0, |whole.kinds|, 0) && Underway(f, 0, args, 0, whole)
    modifies b, b.buf
    ensures Stored(b, base, args, |whole.kinds|, |whole.kinds|, total) && ending == whole.ending
    ensures b.buf == old(b.buf) || fresh(b.buf)
  {
    var p, a: nat := 0, 0;
    total, ending := 0, Done;
    while p < |f| && ending == Done
      invariant Stored(b, base, args, a, |whole.kinds|, total) && (b.buf == old(b.buf) || fresh(b.buf))
      invariant ending == Done ==> p <= |f| && Underway(f, p, args, a, whole)
      invariant ending != Done ==> ending == whole.ending && a == |whole.kinds|
      decreases ending == Done, |f| - p
    {
      p, ending, a, total := DoStep(b, base, f, p, args, a, whole, total);
    }
    if ending == Done { Finished(f, args, a, whole); }
  }

  /** do_valog: stores the arguments the format asks for, in order, and returns how many bytes that took. */
  method DoValog(b: Buffer, f: string, args: seq<Arg>) returns (total: int, ending: Ending)
    requires b.Valid() && Supplied(Walk(f, 0, Writer).kinds, args, 0)
    requires b.offset + |EncodeAll(args[..|Walk(f, 0, Writer).kinds|])| <= MaxRecord
    modifies b, b.buf
    ensures ending == Walk(f, 0, Writer).ending
    ensures b.Valid() && (b.buf == old(b.buf) || fresh(b.buf))
    ensures b.Contents() == old(b.Contents()) + EncodeAll(args[..|Walk(f, 0, Writer).kinds|])
    ensures total == |EncodeAll(args[..|Walk(f, 0, Writer).kinds|])|
  {
    ghost var base := b.Contents();
    assert base + EncodeAll(args[..0]) == base;
    total, ending := DoFormat(b, base, f, args, Walk(f, 0, Writer));
  }

  /** What the file behind a log handle holds. */
  class Log {
    var file: seq<Byte>

    constructor ()
      ensures file == []
    {
      file := [];
    }
  }

  lemma Patched(tag: Byte, zero: seq<Byte>, h: seq<Byte>, e: seq<Byte>)
    requires |zero| == 4
    ensures var before := [tag] + (zero + h) + e; before[..1] == [tag] && before[5..] == h + e
  {
  }

  lemma Assembled(r: Record, before: seq<Byte>, len: int)
    requires before == [BeginTag] + (Image(0, 4) + Header(r)) + EncodeAll(r.args) && len == Length(r)
    ensures before[..1] + Image(len, 4) + before[5..] + [EndTag] == RecordBytes(r)
  {
    var h, e, field := Header(r), EncodeAll(r.args), Image(len, 4);
    Patched(BeginTag, Image(0, 4), h, e);
    assert [BeginTag] + field + (h + e) == [BeginTag] + field + h + e;
  }

  /** Length (to be patched), level, function, line, thread and time. */
  method Prefix(r: Record) returns (prefix: seq<Byte>)
    ensures prefix == Image(0, 4) + Header(r)
  {
    prefix := Image(0, 4);
    prefix := prefix + [r.level];
    prefix := prefix + r.func + [0];
    prefix := prefix + Image(r.line, 4);
    prefix := prefix + Image(r.thread, 8);
    prefix := prefix + Image(r.time, 8);
  }

  /** binlog_print: appends one record, or nothing at all if there is no log or the format is bad. */
  method BinlogPrint(log: Log?, level: int, func: seq<Byte>, line: int, format: string, args: seq<Arg>, thread: int,
      now: int)
    returns (ending: Ending)
    requires |func| + 27 <= StackSize && Supplied(Walk(format, 0, Writer).kinds, args, 0)
    requires |func| + 28 + |EncodeAll(args[..|Walk(format, 0, Writer).kinds|])| <= MaxRecord
    modifies log
    ensures log != null ==> ending == Walk(format, 0, Writer).ending
    ensures log != null && ending == Done ==>
      log.file == old(log.file)
                  + RecordBytes(Record(level % 256, func, line, thread, now, args[..|Walk(format, 0, Writer).kinds|]))
    ensures log != null && ending != Done ==> log.file == old(log.file)
  {
    if log == null { return Done; }
    var stack := new Byte[StackSize];
    var b := new Buffer(stack);
    var size := 4 + 1 + |func| + 1 + 4 + 8 + 8;
    var prefix := Prefix(Record(level % 256, func, line, thread, now, []));
    ghost var r := Record(level % 256, func, line, thread, now, args[..|Walk(format, 0, Writer).kinds|]);
    assert Header(r) == Header(r.(args := []));
    var _ := b.PrintBegin(prefix);
    var vaLength: int;
    vaLength, ending := DoValog(b, format, args);
    if ending == Done {
      Assembled(r, b.Contents(), vaLength + size + 1 + 1);
      var record := b.PrintEnd(vaLength + size + 1 + 1);
      log.file := log.file + record;
    }
  }
}

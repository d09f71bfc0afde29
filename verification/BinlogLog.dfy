/** Whole logs: stepping from record to record by the length field, and the round trip. */
module BinlogLog {
  import opened Windows
  import opened Bytes
  import opened BinlogFormat
  import opened BinlogAgreement
  import opened BinlogRecord
  import opened BinlogWriter
  import opened BinlogParser

  /** The formats collected from the program, by function and line. */
  type Formats = map<(seq<Byte>, int), string>

  /** A record within the 32-bit sizes whose format, found by function and line, asks for its arguments. */
  ghost predicate Parsable(r: Record, formats: Formats) {
    ValidRecord(r) && FitsSigned(Length(r), 4) && (r.func, r.line) in formats
    && Walk(formats[(r.func, r.line)], 0, Parser) == Scan(KindsOf(r.args), Done)
  }

  ghost predicate AllParsable(rs: seq<Record>, formats: Formats) {
    rs != [] ==> Parsable(rs[0], formats) && AllParsable(rs[1..], formats)
  }

  lemma FrameParts(w: seq<Byte>, r: Record)
    requires Stands(w, 0, RecordBytes(r))
    ensures Stands(w, 1, Image(Length(r), 4)) && Stands(w, 5, Header(r))
    ensures Stands(w, 5 + |Header(r)|, EncodeAll(r.args)) && w[Length(r) - 1] == EndTag
  {
    var t, n, h, e := [BeginTag], Image(Length(r), 4), Header(r), EncodeAll(r.args);
    StandsSplit(w, 0, t + n + h + e, [EndTag]);
    StandsAt(w, Length(r) - 1, [EndTag], 0);
    StandsSplit(w, 0, t + n + h, e);
    StandsSplit(w, 0, t + n, h);
    StandsSplit(w, 0, t, n);
  }

  lemma HeaderParts(w: seq<Byte>, p: nat, r: Record)
    requires Stands(w, p, Header(r))
    ensures w[p] == r.level && Stands(w, p + 1, r.func + [0])
    ensures var q := p + 2 + |r.func|;
      Stands(w, q, Image(r.line, 4)) && Stands(w, q + 4, Image(r.thread, 8)) && Stands(w, q + 12, Image(r.time, 8))
  {
    var l, f, z, n, t, u := [r.level], r.func, [0 as Byte], Image(r.line, 4), Image(r.thread, 8), Image(r.time, 8);
    StandsSplit(w, p, l + f + z + n + t, u);
    StandsSplit(w, p, l + f + z + n, t);
    StandsSplit(w, p, l + f + z, n);
    assert l + f + z == l + (f + z);
    StandsSplit(w, p, l, f + z);
    StandsAt(w, p, l, 0);
  }

  /** The bytes of a record, one field after the other. */
  lemma RecordLayout(w: seq<Byte>, r: Record)
    requires Stands(w, 0, RecordBytes(r))
    ensures var n, e := |r.func|, |EncodeAll(r.args)|;
      && Length(r) == 28 + n + e && w[0] == 0xfd && Stands(w, 1, Image(28 + n + e, 4)) && w[5] == r.level
      && Stands(w, 6, r.func + [0]) && Stands(w, 7 + n, Image(r.line, 4)) && Stands(w, 11 + n, Image(r.thread, 8))
      && Stands(w, 19 + n, Image(r.time, 8)) && Stands(w, 27 + n, EncodeAll(r.args)) && w[27 + n + e] == 0xff
  {
    FrameParts(w, r);
    HeaderParts(w, 5, r);
    StandsAt(w, 0, RecordBytes(r), 0);
  }

  /** An argument's bytes: its tag, and a value of 4 or 8 bytes or a terminated string. */
  lemma ArgLayout(w: seq<Byte>, p: nat, a: Arg)
    requires Stands(w, p, Encode(a))
    ensures match a
      case IntArg(v) => w[p] == 0 && Stands(w, p + 1, Image(v, 4))
      case LongArg(v) => w[p] == 1 && Stands(w, p + 1, Image(v, 8))
      case DoubleArg(v) => w[p] == 2 && Stands(w, p + 1, Image(v, 8))
      case StringArg(s) => w[p] == 3 && Stands(w, p + 1, s + [0])
      case PointerArg(v) => w[p] == 4 && Stands(w, p + 1, Image(v, 8))
  {
    StandsSplit(w, p, [Tag(KindOf(a))], Payload(a));
    StandsAt(w, p, Encode(a), 0);
  }

  /** A C string where one stands. */
  method ReadChars(w: seq<Byte>, p: nat, ghost s: seq<Byte>) returns (chars: seq<Byte>)
    requires Stands(w, p, s + [0]) && NulFree(s)
    ensures chars == s
  {
    StandsSplit(w, p, s, [0]);
    StandsAt(w, p + |s|, [0], 0);
    assert w[p..][..|s|] == w[p..p + |s|] == s;
    assert w[p..][|s|] == 0;
    StrLenUnique(w[p..], |s|);
    var n := CountChars(w, p);
    chars := w[p..p + n];
  }

  /** Level, function, line, thread and time, and where the arguments start. */
  method ReadHeader(w: seq<Byte>, ghost r: Record) returns (out: Record, offset: nat)
    requires Stands(w, 5, Header(r)) && ValidRecord(r)
    ensures out == r.(args := []) && offset == 5 + |Header(r)|
  {
    HeaderParts(w, 5, r);
    offset := 5;
    var level := w[offset];
    offset := offset + 1;
    var func := ReadChars(w, offset, r.func);
    offset := offset + |func| + 1;
    SignedImage(r.line, 4);
    var line := Signed(w[offset..offset + 4]);
    offset := offset + 4;
    UnsignedImage(r.thread, 8);
    var thread := Unsigned(w[offset..offset + 8]);
    offset := offset + 8;
    SignedImage(r.time, 8);
    var time := Signed(w[offset..offset + 8]);
    offset := offset + 8;
    out := Record(level, func, line, thread, time, []);
  }

  /**
   * One round of binlog_prase, on a buffer that starts at a record whose format is found. The record is given
   * back with as many of its arguments as the format asks for, and refused if it asks for other types or
   * for more; a format that asks for exactly its arguments leaves the cursor on the end tag.
   */
  method ReadRecord(w: seq<Byte>, formats: Formats, ghost r: Record)
      returns (out: Record, outcome: Outcome, len: int, stop: nat)
    requires Stands(w, 0, RecordBytes(r)) && ValidRecord(r) && FitsSigned(Length(r), 4)
    requires (r.func, r.line) in formats
    ensures len == Length(r)
    ensures var asked := Walk(formats[(r.func, r.line)], 0, Parser);
      if asked.kinds <= KindsOf(r.args)
      then outcome == Ended(asked.ending) && out == r.(args := r.args[..|asked.kinds|])
      else outcome == Corrupt
    ensures Parsable(r, formats) ==> out == r && outcome == Ended(Done) && stop == len - 1 && w[stop] == EndTag
  {
    FrameParts(w, r);
    SignedImage(Length(r), 4);
    len := Signed(w[1..5]);
    var offset: nat;
    out, offset := ReadHeader(w, r);
    var vlist := new VaList(w, len, offset);
    var values;
    values, outcome := PrintStored(vlist, formats[(out.func, out.line)], r.args);
    assert r.args[..|r.args|] == r.args;
    out := out.(args := values);
    stop := vlist.off;
  }

  /** rs with the records already read taken off the front. */
  ghost predicate Remaining(log: seq<Byte>, at: int, rs: seq<Record>, formats: Formats) {
    var all := 0 <= at <= |log| && log[at..] == LogBytes(rs) && AllParsable(rs, formats);
    all
  }

  lemma RecordFirst(log: seq<Byte>, at: int, rs: seq<Record>, formats: Formats)
    requires Remaining(log, at, rs, formats) && rs != []
    ensures Stands(log[at..], 0, RecordBytes(rs[0])) && Parsable(rs[0], formats)
    ensures Remaining(log, at + Length(rs[0]), rs[1..], formats)
  {
    SuffixSplit(log, at, RecordBytes(rs[0]), LogBytes(rs[1..]));
    assert log[at..][0..Length(rs[0])] == log[at..at + Length(rs[0])];
  }

  lemma LogEnds(log: seq<Byte>, at: int, rs: seq<Record>, formats: Formats)
    requires Remaining(log, at, rs, formats)
    ensures at == |log| <==> rs == []
  {
  }

  method ParseStep(log: seq<Byte>, formats: Formats, offset: nat, ghost left: seq<Record>)
      returns (r: Record, offset': nat)
    requires Remaining(log, offset, left, formats) && left != []
    ensures r == left[0] && Remaining(log, offset', left[1..], formats)
    ensures offset' == |log| <==> left[1..] == []
  {
    RecordFirst(log, offset, left, formats);
    var one, _, len, _ := ReadRecord(log[offset..], formats, left[0]);
    r, offset' := one, offset + len;
    LogEnds(log, offset', left[1..], formats);
  }

  /**
   * binlog_prase over a log that was read in one piece: it visits every record once, in order, and ends
   * at the end of the file.
   */
  method BinlogParse(log: seq<Byte>, formats: Formats, ghost rs: seq<Record>) returns (out: seq<Record>, offset: nat)
    requires log == LogBytes(rs) && rs != [] && AllParsable(rs, formats)
    ensures out == rs && offset == |log|
  {
    out, offset := [], 0;
    ghost var left := rs;
    assert log[0..] == log;
    while true
      invariant Remaining(log, offset, left, formats) && left != [] && out + left == rs
      decreases |left|
    {
      var r: Record;
      r, offset := ParseStep(log, formats, offset, left);
      assert left == [left[0]] + left[1..];
      out, left := out + [r], left[1..];
      if offset == |log| { break; }
    }
  }

  // ---- The round trip ----

  /** A call of the writer, and the record it appends when the format is good. */
  datatype Call = Call(level: int, func: seq<Byte>, line: int, format: string, args: seq<Arg>, thread: int, now: int)

  function RecordOf(c: Call): (r: Record) {
    Record(c.level % 256, c.func, c.line, c.thread, c.now, c.args)
  }

  /**
   * A record written with a format that swallows no specifier is parsable with that format if and only
   * if the format is harmless.
   */
  lemma WrittenParsable(c: Call, formats: Formats)
    requires ValidRecord(RecordOf(c)) && FitsSigned(Length(RecordOf(c)), 4)
    requires Walk(c.format, 0, Writer) == Scan(KindsOf(c.args), Done)
    requires (c.func, c.line) in formats && formats[(c.func, c.line)] == c.format
    requires NothingSwallowed(c.format, 0) && Walk(c.format, 0, Parser).ending == Done
    ensures Parsable(RecordOf(c), formats) <==> Harmless(c.format, 0)
  {
    Agreement(c.format);
  }

  /** What BinlogPrint demands of one call, and a format both scanners treat alike. */
  ghost predicate GoodCall(c: Call, formats: Formats) {
    var sizes := |c.func| + 27 <= StackSize && Length(RecordOf(c)) <= MaxRecord;
    var values := ValidRecord(RecordOf(c));
    var collected := (c.func, c.line) in formats && formats[(c.func, c.line)] == c.format;
    var format := Harmless(c.format, 0) && Walk(c.format, 0, Parser) == Scan(KindsOf(c.args), Done);
    sizes && values && collected && format
  }

  lemma GoodCallWrites(c: Call, formats: Formats)
    requires GoodCall(c, formats)
    ensures Walk(c.format, 0, Writer) == Scan(KindsOf(c.args), Done) && Supplied(KindsOf(c.args), c.args, 0)
    ensures c.args[..|KindsOf(c.args)|] == c.args
    ensures Parsable(RecordOf(c), formats)
  {
    HarmlessAgrees(c.format);
    KindsAt(c.args);
    assert FitsSigned(Length(RecordOf(c)), 4);
  }

  lemma {:induction false} KindsAt(args: seq<Arg>)
    ensures forall i :: 0 <= i < |args| ==> KindsOf(args)[i] == KindOf(args[i])
  {
    if args != [] {
      KindsAt(args[1..]);
      forall i | 0 <= i < |args| ensures KindsOf(args)[i] == KindOf(args[i]) {
        if i > 0 { assert args[i] == args[1..][i - 1]; }
      }
    }
  }

  function RecordsOf(cs: seq<Call>): (rs: seq<Record>)
    ensures |rs| == |cs|
  {
    if cs == [] then [] else RecordsOf(cs[..|cs| - 1]) + [RecordOf(cs[|cs| - 1])]
  }

  lemma {:induction false} ParsableAppend(rs: seq<Record>, r: Record, formats: Formats)
    requires AllParsable(rs, formats) && Parsable(r, formats)
    ensures AllParsable(rs + [r], formats)
  {
    if rs == [] {
      assert (rs + [r])[1..] == [];
    } else {
      assert (rs + [r])[0] == rs[0] && (rs + [r])[1..] == rs[1..] + [r];
      ParsableAppend(rs[1..], r, formats);
    }
  }

  /** The log holds exactly these records, and the parser can read them. */
  ghost predicate Holds(file: seq<Byte>, rs: seq<Record>, formats: Formats) {
    var all := file == LogBytes(rs) && AllParsable(rs, formats);
    all
  }

  /** One good call appends its record to a log of good records. */
  method WriteOne(log: Log, c: Call, formats: Formats, ghost rs: seq<Record>)
    requires Holds(log.file, rs, formats) && GoodCall(c, formats)
    modifies log
    ensures Holds(log.file, rs + [RecordOf(c)], formats)
  {
    GoodCallWrites(c, formats);
    var _ := BinlogPrint(log, c.level, c.func, c.line, c.format, c.args, c.thread, c.now);
    LogAppend(rs, RecordOf(c));
    ParsableAppend(rs, RecordOf(c), formats);
  }

  lemma RecordsNext(cs: seq<Call>, i: nat)
    requires i < |cs|
    ensures RecordsOf(cs[..i + 1]) == RecordsOf(cs[..i]) + [RecordOf(cs[i])]
  {
    assert cs[..i + 1][..i] == cs[..i];
  }

  /** Any run of the writer followed by the parser gives back every call's record, in order. */
  method WriteThenParse(cs: seq<Call>, formats: Formats) returns (out: seq<Record>)
    requires cs != [] && forall i :: 0 <= i < |cs| ==> GoodCall(cs[i], formats)
    ensures out == RecordsOf(cs)
  {
    var log := new Log();
    for i := 0 to |cs|
      invariant Holds(log.file, RecordsOf(cs[..i]), formats)
    {
      RecordsNext(cs, i);
      WriteOne(log, cs[i], formats, RecordsOf(cs[..i]));
    }
    assert cs[..|cs|] == cs;
    var records, _ := BinlogParse(log.file, formats, RecordsOf(cs));
    out := records;
  }
}

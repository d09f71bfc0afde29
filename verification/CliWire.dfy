/**
 * The command line's wire format: length-prefixed C strings between client and server, closed by CR LF,
 * and the server's reader, which stops at the first CR LF whatever it belongs to.
 */
module CliWire {
  import opened Options
  import opened Windows
  import opened Bytes

  const MaxLen := 32
  const MaxArgs := 32
  const BufferSize := 1024
  const CR: Byte := 13
  const LF: Byte := 10

  /** What the client accepts of an argument: a C string of at most 32 bytes with its terminator. */
  ghost predicate ValidString(s: seq<Byte>) { NulFree(s) && |s| + 1 <= MaxLen }

  ghost predicate ValidArgs(argv: seq<seq<Byte>>) {
    argv != [] ==> ValidString(argv[0]) && ValidArgs(argv[1..])
  }

  /** A length, which counts the terminator, and the string. */
  function Item(s: seq<Byte>): (b: seq<Byte>)
    ensures |b| == |s| + 5
  {
    Image(|s| + 1, 4) + (s + [0])
  }

  function Items(argv: seq<seq<Byte>>): (b: seq<Byte>) {
    if argv == [] then [] else Item(argv[0]) + Items(argv[1..])
  }

  function Body(sub: seq<Byte>, argv: seq<seq<Byte>>): (b: seq<Byte>) {
    Item(sub) + (Image(|argv|, 4) + Items(argv))
  }

  function Message(sub: seq<Byte>, argv: seq<seq<Byte>>): (b: seq<Byte>) {
    Body(sub, argv) + [CR, LF]
  }

  lemma {:induction false} ItemsAppend(argv: seq<seq<Byte>>, s: seq<Byte>)
    ensures Items(argv + [s]) == Items(argv) + Item(s)
  {
    if argv == [] {
      assert argv + [s] == [s];
    } else {
      assert (argv + [s])[0] == argv[0] && (argv + [s])[1..] == argv[1..] + [s];
      ItemsAppend(argv[1..], s);
    }
  }

  // ---- Encoding ----

  /** A store of consecutive bytes. */
  method Put(buf: array<Byte>, at: nat, bytes: seq<Byte>) returns (next: nat)
    requires at + |bytes| <= buf.Length
    modifies buf
    ensures next == at + |bytes| && buf[..next] == old(buf[..at]) + bytes
  {
    forall i | 0 <= i < |bytes| { buf[at + i] := bytes[i]; }
    next := at + |bytes|;
  }

  /** A length and a string. */
  method PutItem(buf: array<Byte>, at: nat, s: seq<Byte>) returns (next: nat)
    requires at + |Item(s)| <= buf.Length
    modifies buf
    ensures next == at + |Item(s)| && buf[..next] == old(buf[..at]) + Item(s)
  {
    ghost var before := buf[..at];
    next := Put(buf, at, Image(|s| + 1, 4));
    next := Put(buf, next, s + [0]);
    assert before + Image(|s| + 1, 4) + (s + [0]) == before + Item(s);
  }

  lemma ItemsNext(argv: seq<seq<Byte>>, i: nat)
    requires i < |argv|
    ensures Items(argv[..i + 1]) == Items(argv[..i]) + Item(argv[i])
    ensures |Items(argv[..i + 1])| <= |Items(argv)|
  {
    assert argv[..i + 1] == argv[..i] + [argv[i]];
    ItemsAppend(argv[..i], argv[i]);
    ItemsSplit(argv, i + 1);
  }

  lemma {:induction false} ItemsSplit(argv: seq<seq<Byte>>, i: nat)
    requires i <= |argv|
    ensures Items(argv) == Items(argv[..i]) + Items(argv[i..])
    decreases i
  {
    if i > 0 {
      var n := argv[1..];
      assert argv[..i][1..] == n[..i - 1] && argv[..i][0] == argv[0] && argv[i..] == n[i - 1..];
      ItemsSplit(n, i - 1);
    } else {
      assert argv[0..] == argv;
    }
  }

  method PutItems(buf: array<Byte>, at: nat, argv: seq<seq<Byte>>) returns (next: nat)
    requires at + |Items(argv)| <= buf.Length
    modifies buf
    ensures next == at + |Items(argv)| && buf[..next] == old(buf[..at]) + Items(argv)
  {
    ghost var before := buf[..at];
    next := at;
    for i := 0 to |argv|
      invariant next == at + |Items(argv[..i])| <= buf.Length
      invariant buf[..next] == before + Items(argv[..i])
    {
      ItemsNext(argv, i);
      next := PutItem(buf, next, argv[i]);
    }
    assert argv[..|argv|] == argv;
  }

  /** msg_encode. */
  method MsgEncode(buf: array<Byte>, sub: seq<Byte>, argv: seq<seq<Byte>>) returns (offset: nat)
    requires |Message(sub, argv)| <= buf.Length
    modifies buf
    ensures offset == |Message(sub, argv)| && buf[..offset] == Message(sub, argv)
  {
    offset := PutItem(buf, 0, sub);
    offset := Put(buf, offset, Image(|argv|, 4));
    offset := PutItems(buf, offset, argv);
    assert buf[..offset] == Body(sub, argv);
    offset := Put(buf, offset, [CR]);
    offset := Put(buf, offset, [LF]);
    assert buf[..offset] == Message(sub, argv);
  }

  // ---- Decoding ----

  /** Pointers into the buffer, and the offset after the last thing read. */
  datatype Pointers = Pointers(argv: seq<nat>, next: nat)
  datatype Request = Request(sub: nat, argv: seq<nat>, next: nat)

  /** A length field no larger than the limit; None where the server asserts or leaves the buffer. */
  function Field(b: seq<Byte>, p: nat): (r: Option<nat>) {
    if p + 4 > |b| || Unsigned(b[p..p + 4]) > MaxLen then None else Some(Unsigned(b[p..p + 4]))
  }

  function DecodeArgs(b: seq<Byte>, p: nat, n: nat): (r: Option<Pointers>)
    decreases n, p
  {
    if n == 0 then Some(Pointers([], p)) else
      match Field(b, p)
      case None => None
      case Some(len) =>
        match DecodeArgs(b, p + 4 + len, n - 1)
        case None => None
        case Some(more) => Some(Pointers([p + 4] + more.argv, more.next))
  }

  function Decode(b: seq<Byte>): (r: Option<Request>) {
    match Field(b, 0)
    case None => None
    case Some(len) =>
      match Field(b, 4 + len)
      case None => None
      case Some(argc) =>
        match DecodeArgs(b, 8 + len, argc)
        case None => None
        case Some(args) => Some(Request(4, args.argv, args.next))
  }

  function Prefixed(ptrs: seq<nat>, more: Option<Pointers>): (r: Option<Pointers>) {
    if more.None? then None else Some(Pointers(ptrs + more.value.argv, more.value.next))
  }

  lemma PrefixedNext(ptrs: seq<nat>, b: seq<Byte>, p: nat, n: nat)
    requires n > 0
    ensures Field(b, p).None? ==> Prefixed(ptrs, DecodeArgs(b, p, n)) == None
    ensures Field(b, p).Some? ==>
      Prefixed(ptrs, DecodeArgs(b, p, n)) == Prefixed(ptrs + [p + 4], DecodeArgs(b, p + 4 + Field(b, p).value, n - 1))
  {
    if Field(b, p).Some? {
      var more := DecodeArgs(b, p + 4 + Field(b, p).value, n - 1);
      assert more.Some? ==> ptrs + ([p + 4] + more.value.argv) == (ptrs + [p + 4]) + more.value.argv;
    }
  }

  /** The loop over the arguments. */
  method DecodeLoop(b: seq<Byte>, start: nat, argc: nat) returns (r: Option<Pointers>)
    ensures r == DecodeArgs(b, start, argc)
  {
    var offset, argv: seq<nat> := start, [];
    ghost var whole := DecodeArgs(b, start, argc);
    assert whole.Some? ==> [] + whole.value.argv == whole.value.argv;
    for i := 0 to argc
      invariant 0 <= offset && whole == Prefixed(argv, DecodeArgs(b, offset, argc - i))
    {
      PrefixedNext(argv, b, offset, argc - i);
      var len := Field(b, offset);
      if len.None? { return None; }
      offset := offset + 4;
      argv := argv + [offset];
      offset := offset + len.value;
    }
    assert argv + [] == argv;
    r := Some(Pointers(argv, offset));
  }

  /** msg_decode. */
  method MsgDecode(b: seq<Byte>) returns (r: Option<Request>)
    ensures r == Decode(b)
  {
    var len := Field(b, 0);
    if len.None? { return None; }
    var sub := 4;
    var argc := Field(b, sub + len.value);
    if argc.None? { return None; }
    var args := DecodeLoop(b, sub + len.value + 4, argc.value);
    if args.None? { return None; }
    r := Some(Request(sub, args.value.argv, args.value.next));
  }

  // ---- What was encoded is decoded ----

  /** The C string a pointer designates. */
  function CString(b: seq<Byte>, p: nat): (s: seq<Byte>) {
    if p > |b| then [] else b[p..p + StrLen(b[p..])]
  }

  ghost predicate Designate(b: seq<Byte>, ptrs: seq<nat>, argv: seq<seq<Byte>>) {
    |ptrs| == |argv| && forall i :: 0 <= i < |argv| ==> CString(b, ptrs[i]) == argv[i]
  }

  lemma FieldStands(b: seq<Byte>, p: nat, n: nat)
    requires Stands(b, p, Image(n, 4)) && n <= MaxLen
    ensures Field(b, p) == Some(n)
  {
    UnsignedImage(n, 4);
  }

  lemma StringStands(b: seq<Byte>, p: nat, s: seq<Byte>)
    requires Stands(b, p, s + [0]) && NulFree(s)
    ensures CString(b, p) == s
  {
    StandsSplit(b, p, s, [0]);
    StandsAt(b, p + |s|, [0], 0);
    assert b[p..][..|s|] == s && b[p..][|s|] == 0;
    StrLenUnique(b[p..], |s|);
  }

  lemma ItemStands(b: seq<Byte>, p: nat, s: seq<Byte>)
    requires Stands(b, p, Item(s)) && ValidString(s)
    ensures Field(b, p) == Some(|s| + 1) && CString(b, p + 4) == s
  {
    StandsSplit(b, p, Image(|s| + 1, 4), s + [0]);
    FieldStands(b, p, |s| + 1);
    StringStands(b, p + 4, s);
  }

  lemma DesignateMore(b: seq<Byte>, p: nat, ptrs: seq<nat>, s: seq<Byte>, argv: seq<seq<Byte>>)
    requires CString(b, p) == s && Designate(b, ptrs, argv)
    ensures Designate(b, [p] + ptrs, [s] + argv)
  {
  }

  lemma ItemThen(b: seq<Byte>, p: nat, q: nat, s: seq<Byte>, n: nat, more: Pointers, argv: seq<seq<Byte>>)
    requires Stands(b, p, Item(s)) && ValidString(s) && q == p + |Item(s)|
    requires DecodeArgs(b, q, n) == Some(more) && Designate(b, more.argv, argv)
    ensures DecodeArgs(b, p, n + 1) == Some(Pointers([p + 4] + more.argv, more.next))
    ensures Designate(b, [p + 4] + more.argv, [s] + argv)
  {
    ItemStands(b, p, s);
    DesignateMore(b, p + 4, more.argv, s, argv);
  }

  lemma {:induction false} ItemsStand(b: seq<Byte>, p: nat, argv: seq<seq<Byte>>) returns (r: Pointers)
    requires Stands(b, p, Items(argv)) && ValidArgs(argv)
    ensures DecodeArgs(b, p, |argv|) == Some(r) && r.next == p + |Items(argv)| && Designate(b, r.argv, argv)
    decreases |argv|
  {
    if argv == [] {
      r := Pointers([], p);
    } else {
      var s, others := argv[0], argv[1..];
      assert [s] + others == argv && Items(argv) == Item(s) + Items(others);
      StandsSplit(b, p, Item(s), Items(others));
      var more := ItemsStand(b, p + |Item(s)|, others);
      ItemThen(b, p, p + |Item(s)|, s, |others|, more, others);
      r := Pointers([p + 4] + more.argv, more.next);
    }
  }

  lemma MessageParts(b: seq<Byte>, x: seq<Byte>, y: seq<Byte>, z: seq<Byte>)
    requires Stands(b, 0, (x + (y + z)) + [CR, LF])
    ensures Stands(b, 0, x) && Stands(b, |x|, y) && Stands(b, |x| + |y|, z)
  {
    StandsSplit(b, 0, x + (y + z), [CR, LF]);
    StandsSplit(b, 0, x, y + z);
    StandsSplit(b, |x|, y, z);
  }

  lemma DecodeParts(b: seq<Byte>, len: nat, argc: nat, args: Pointers)
    requires Field(b, 0) == Some(len) && Field(b, 4 + len) == Some(argc) && DecodeArgs(b, 8 + len, argc) == Some(args)
    ensures Decode(b) == Some(Request(4, args.argv, args.next))
  {
  }

  /**
   * Decoding a buffer that starts with an encoded message gives back the subcommand and the arguments,
   * and leaves the offset two short of the encoder's.
   */
  lemma RoundTrip(b: seq<Byte>, sub: seq<Byte>, argv: seq<seq<Byte>>)
    requires Stands(b, 0, Message(sub, argv)) && ValidString(sub) && ValidArgs(argv) && |argv| <= MaxArgs
    ensures var r := Decode(b);
      r.Some? && r.value.next == |Message(sub, argv)| - 2
      && CString(b, r.value.sub) == sub && Designate(b, r.value.argv, argv)
  {
    MessageParts(b, Item(sub), Image(|argv|, 4), Items(argv));
    ItemStands(b, 0, sub);
    FieldStands(b, |Item(sub)|, |argv|);
    var args := ItemsStand(b, |Item(sub)| + 4, argv);
    DecodeParts(b, |sub| + 1, |argv|, args);
  }

  // ---- What can be decoded at all ----

  /** From p on stand these lengths, none above 32, each followed by as many bytes. */
  ghost predicate Framed(b: seq<Byte>, p: nat, lens: seq<nat>)
    decreases |lens|
  {
    lens != [] ==> lens[0] <= 32 && Stands(b, p, Image(lens[0], 4)) && Framed(b, p + 4 + lens[0], lens[1..])
  }

  /** Where the strings of such lengths start, and where they end. */
  function Starts(p: nat, lens: seq<nat>): (ptrs: seq<nat>)
    ensures |ptrs| == |lens|
    decreases |lens|
  {
    if lens == [] then [] else [p + 4] + Starts(p + 4 + lens[0], lens[1..])
  }

  function End(p: nat, lens: seq<nat>): (q: nat)
    decreases |lens|
  {
    if lens == [] then p else End(p + 4 + lens[0], lens[1..])
  }

  lemma {:induction false} FieldExact(b: seq<Byte>, p: nat, n: nat)
    requires FitsUnsigned(n, 4)
    ensures Field(b, p) == Some(n) <==> n <= 32 && Stands(b, p, Image(n, 4))
    ensures Stands(b, p, Image(n, 4)) && n > 32 ==> Field(b, p) == None
  {
    UnsignedImage(n, 4);
    if p + 4 <= |b| { ValueImage(b[p..p + 4]); }
  }

  lemma {:induction false} FramedDecodes(b: seq<Byte>, p: nat, lens: seq<nat>)
    requires Framed(b, p, lens)
    ensures DecodeArgs(b, p, |lens|) == Some(Pointers(Starts(p, lens), End(p, lens)))
    decreases |lens|
  {
    if lens != [] {
      FieldExact(b, p, lens[0]);
      FramedDecodes(b, p + 4 + lens[0], lens[1..]);
    }
  }

  lemma {:induction false} DecodedFramed(b: seq<Byte>, p: nat, n: nat) returns (lens: seq<nat>)
    requires DecodeArgs(b, p, n).Some?
    ensures |lens| == n && Framed(b, p, lens)
    decreases n
  {
    lens := [];
    if n > 0 {
      var len := Field(b, p).value;
      FieldExact(b, p, len);
      var more := DecodedFramed(b, p + 4 + len, n - 1);
      lens := [len] + more;
      assert lens[1..] == more;
    }
  }

  /** A request with these lengths: the subcommand's, and the arguments' behind their number. */
  ghost predicate RequestFrame(b: seq<Byte>, len: nat, lens: seq<nat>) {
    && len <= 32 && Stands(b, 0, Image(len, 4))
    && |lens| <= 32 && Stands(b, 4 + len, Image(|lens|, 4)) && Framed(b, 8 + len, lens)
  }

  lemma FrameDecodes(b: seq<Byte>, len: nat, lens: seq<nat>)
    requires RequestFrame(b, len, lens)
    ensures Decode(b) == Some(Request(4, Starts(8 + len, lens), End(8 + len, lens)))
  {
    FieldExact(b, 0, len);
    FieldExact(b, 4 + len, |lens|);
    FramedDecodes(b, 8 + len, lens);
  }

  /** A buffer can be decoded if and only if it holds lengths none of which is above 32, and no more than 32
      of arguments; the pointers are then just behind the lengths. */
  lemma DecodeExact(b: seq<Byte>, r: Request)
    ensures Decode(b) == Some(r)
       <==> exists len: nat, lens: seq<nat> ::
              RequestFrame(b, len, lens) && r == Request(4, Starts(8 + len, lens), End(8 + len, lens))
  {
    if Decode(b) == Some(r) {
      var len := Field(b, 0).value;
      var argc := Field(b, 4 + len).value;
      FieldExact(b, 0, len);
      FieldExact(b, 4 + len, argc);
      var lens := DecodedFramed(b, 8 + len, argc);
      FrameDecodes(b, len, lens);
      assert RequestFrame(b, len, lens) && r == Request(4, Starts(8 + len, lens), End(8 + len, lens));
    }
    forall len: nat, lens: seq<nat> | RequestFrame(b, len, lens)
      ensures Decode(b) == Some(Request(4, Starts(8 + len, lens), End(8 + len, lens)))
    {
      FrameDecodes(b, len, lens);
    }
  }

  lemma {:induction false} LongRefused(b: seq<Byte>, p: nat, lens: seq<nat>, long: nat, n: nat)
    requires Framed(b, p, lens) && |lens| < n
    requires 32 < long && FitsUnsigned(long, 4) && Stands(b, End(p, lens), Image(long, 4))
    ensures DecodeArgs(b, p, n) == None
    decreases |lens|
  {
    if lens == [] {
      FieldExact(b, p, long);
    } else {
      FieldExact(b, p, lens[0]);
      LongRefused(b, p + 4 + lens[0], lens[1..], long, n - 1);
    }
  }

  /** A length above 32 is met on the way: the subcommand's, the number of arguments, or that of an argument
      behind others. */
  ghost predicate LongMet(b: seq<Byte>, len: nat, argc: nat, lens: seq<nat>, long: nat) {
    var first := Stands(b, 0, Image(long, 4));
    var started := len <= 32 && Stands(b, 0, Image(len, 4));
    var second := started && Stands(b, 4 + len, Image(long, 4));
    var counted := started && argc <= 32 && Stands(b, 4 + len, Image(argc, 4));
    var later := counted && |lens| < argc && Framed(b, 8 + len, lens) && Stands(b, End(8 + len, lens), Image(long, 4));
    first || second || later
  }

  /** Wherever it is met, it is refused. */
  lemma LimitRefuses(b: seq<Byte>, len: nat, argc: nat, lens: seq<nat>, long: nat)
    requires 32 < long && FitsUnsigned(long, 4) && LongMet(b, len, argc, lens, long)
    ensures Decode(b) == None
  {
    if Stands(b, 0, Image(long, 4)) {
      FieldExact(b, 0, long);
    } else {
      FieldExact(b, 0, len);
      if Stands(b, 4 + len, Image(long, 4)) {
        FieldExact(b, 4 + len, long);
      } else {
        FieldExact(b, 4 + len, argc);
        LongRefused(b, 8 + len, lens, long, argc);
      }
    }
  }

  // ---- Reading a request ----

  /** A CR LF pair that ends at i. */
  predicate EndsAt(s: seq<Byte>, i: int) { 0 < i < |s| && s[i] == LF && s[i - 1] == CR }

  ghost predicate NoCrLf(s: seq<Byte>) { forall i :: 0 < i < |s| ==> !EndsAt(s, i) }

  datatype Reading = Complete | Closed | TooLong

  /** Why and where a reader with a limited buffer stopped. */
  ghost predicate Stopped(stream: seq<Byte>, out: Reading, n: nat) {
    n <= |stream| && n <= BufferSize
    && match out
       case Complete => EndsAt(stream, n - 1) && NoCrLf(stream[..n - 1])
       case Closed => n == |stream| < BufferSize && NoCrLf(stream)
       case TooLong => n == BufferSize && NoCrLf(stream[..n])
  }

  /** The byte loop of do_accept: up to the first CR LF, the end of the stream or a full buffer. */
  method ReadRequest(stream: seq<Byte>, cmd: array<Byte>) returns (out: Reading, n: nat)
    requires cmd.Length == BufferSize
    modifies cmd
    ensures n <= BufferSize && n <= |stream| && cmd[..n] == stream[..n]
    ensures Stopped(stream, out, n)
  {
    var pos := 0;
    while true
      invariant 0 <= pos < BufferSize && pos <= |stream|
      invariant cmd[..pos] == stream[..pos] && NoCrLf(stream[..pos])
      decreases BufferSize - pos
    {
      if pos == |stream| {
        assert stream[..pos] == stream;
        return Closed, pos;
      }
      cmd[pos] := stream[pos];
      if pos > 0 && cmd[pos] == LF && cmd[pos - 1] == CR {
        assert cmd[pos - 1] == cmd[..pos][pos - 1];
        return Complete, pos + 1;
      }
      assert stream[..pos + 1] == stream[..pos] + [stream[pos]];
      NoCrLfMore(stream[..pos], stream[pos]) by { assert pos > 0 ==> cmd[pos - 1] == stream[..pos][pos - 1]; }
      pos := pos + 1;
      if pos >= BufferSize { return TooLong, pos; }
    }
  }

  lemma NoCrLfMore(s: seq<Byte>, b: Byte)
    requires NoCrLf(s) && (s != [] ==> b != LF || s[|s| - 1] != CR)
    ensures NoCrLf(s + [b])
  {
    forall i | 0 < i < |s + [b]| ensures !EndsAt(s + [b], i) {
      if i < |s| { assert !EndsAt(s, i); }
    }
  }

  /** Segments that end in a zero byte cannot make a pair with what follows. */
  lemma NoCrLfJoin(s: seq<Byte>, t: seq<Byte>)
    requires NoCrLf(s) && NoCrLf(t) && (s != [] ==> s[|s| - 1] != CR)
    ensures NoCrLf(s + t)
  {
    forall i | 0 < i < |s + t| ensures !EndsAt(s + t, i) {
      if i < |s| { assert !EndsAt(s, i); }
      if i > |s| { assert !EndsAt(t, i - |s|); }
    }
  }

  lemma NoCrLfPart(s: seq<Byte>, a: nat, b: nat)
    requires a <= b <= |s| && NoCrLf(s)
    ensures NoCrLf(s[a..b])
  {
    forall i | 0 < i < b - a ensures !EndsAt(s[a..b], i) { assert !EndsAt(s, a + i); }
  }

  /** Lengths whose fourth byte is zero. */
  const ThreeBytes := 0x100_0000

  /** No two neighbouring bytes of a length are CR LF, which is 2573 as a little-endian number. */
  predicate PlainLength(n: nat) { n % 0x1_0000 != 2573 && n / 0x100 % 0x1_0000 != 2573 }

  lemma ImageBytes(n: nat)
    requires n < ThreeBytes
    ensures Image(n, 4) == [n % 256, n / 256 % 256, n / 256 / 256, 0]
  {
    var a, b, c := n / 256, n / 256 / 256, n / 256 / 256 / 256;
    assert Image(c, 1) == [c % 256] + Image(c / 256, 0);
    assert Image(b, 2) == [b % 256] + Image(c, 1);
    assert Image(a, 3) == [a % 256] + Image(b, 2);
    assert Image(n, 4) == [n % 256] + Image(a, 3);
  }

  lemma TwoBytes(n: nat)
    ensures n % 0x1_0000 == n % 256 + 256 * (n / 256 % 256)
  {
    var q, r := n / 0x1_0000, n % 0x1_0000;
    assert n == 256 * (256 * q + r / 256) + r % 256;
    assert n / 256 == 256 * q + r / 256;
  }

  /** A length is mistaken for CR LF exactly when two neighbouring bytes of it are. */
  lemma LengthImage(n: nat)
    requires n < ThreeBytes
    ensures NoCrLf(Image(n, 4)) <==> PlainLength(n)
  {
    ImageBytes(n);
    TwoBytes(n);
    TwoBytes(n / 256);
    var b := Image(n, 4);
    assert NoCrLf(b) <==> !EndsAt(b, 1) && !EndsAt(b, 2) && !EndsAt(b, 3);
  }

  lemma ItemExact(s: seq<Byte>)
    requires |s| + 1 < ThreeBytes
    ensures NoCrLf(Item(s)) <==> PlainLength(|s| + 1) && NoCrLf(s)
    ensures Item(s)[|Item(s)| - 1] == 0
  {
    var n := Image(|s| + 1, 4);
    ImageBytes(|s| + 1);
    LengthImage(|s| + 1);
    JoinIff(n, s + [0]);
    if NoCrLf(s) { NoCrLfMore(s, 0); }
    if NoCrLf(s + [0]) {
      NoCrLfPart(s + [0], 0, |s|);
      assert (s + [0])[0..|s|] == s;
    }
  }

  /** Neither a string nor its length contains CR LF. */
  ghost predicate Clean(s: seq<Byte>) { PlainLength(|s| + 1) && NoCrLf(s) }

  ghost predicate AllClean(argv: seq<seq<Byte>>) {
    argv != [] ==> Clean(argv[0]) && AllClean(argv[1..])
  }

  ghost predicate AllThreeBytes(argv: seq<seq<Byte>>) {
    argv != [] ==> |argv[0]| + 1 < ThreeBytes && AllThreeBytes(argv[1..])
  }

  /** None of the strings contains CR LF. */
  ghost predicate PairFree(argv: seq<seq<Byte>>) {
    argv != [] ==> NoCrLf(argv[0]) && PairFree(argv[1..])
  }

  /** Segments that end in zero, one after the other. */
  lemma JoinIff(s: seq<Byte>, t: seq<Byte>)
    requires s != [] && s[|s| - 1] == 0
    ensures NoCrLf(s + t) <==> NoCrLf(s) && NoCrLf(t)
  {
    if NoCrLf(s) && NoCrLf(t) { NoCrLfJoin(s, t); }
    if NoCrLf(s + t) {
      NoCrLfPart(s + t, 0, |s|);
      NoCrLfPart(s + t, |s|, |s + t|);
      assert (s + t)[0..|s|] == s && (s + t)[|s|..|s + t|] == t;
    }
  }

  lemma {:induction false} ItemsExact(argv: seq<seq<Byte>>)
    requires AllThreeBytes(argv)
    ensures NoCrLf(Items(argv)) <==> AllClean(argv)
    ensures argv != [] ==> Items(argv) != [] && Items(argv)[|Items(argv)| - 1] == 0
  {
    if argv != [] {
      ItemExact(argv[0]);
      ItemsExact(argv[1..]);
      JoinIff(Item(argv[0]), Items(argv[1..]));
    }
  }

  lemma BodyExact(sub: seq<Byte>, argv: seq<seq<Byte>>)
    requires |sub| + 1 < ThreeBytes && AllThreeBytes(argv) && |argv| < ThreeBytes
    ensures NoCrLf(Body(sub, argv)) <==> Clean(sub) && PlainLength(|argv|) && AllClean(argv)
    ensures Body(sub, argv)[|Body(sub, argv)| - 1] == 0
  {
    ImageBytes(|argv|);
    LengthImage(|argv|);
    ItemExact(sub);
    ItemsExact(argv);
    JoinIff(Image(|argv|, 4), Items(argv));
    JoinIff(Item(sub), Image(|argv|, 4) + Items(argv));
  }

  /**
   * Whatever the strings and their number, short of 2^24: the first CR LF of an encoded message is its
   * last two bytes if and only if no string, no length and not the count contains CR LF.
   */
  lemma TerminationExact(sub: seq<Byte>, argv: seq<seq<Byte>>)
    requires |sub| + 1 < ThreeBytes && AllThreeBytes(argv) && |argv| < ThreeBytes
    ensures var m := Message(sub, argv);
      EndsAt(m, |m| - 1) && (NoCrLf(m[..|m| - 1]) <==> Clean(sub) && PlainLength(|argv|) && AllClean(argv))
  {
    var m, body := Message(sub, argv), Body(sub, argv);
    BodyExact(sub, argv);
    assert m[..|m| - 1] == body + [CR];
    JoinIff(body, [CR]);
  }

  lemma SmallClean(s: seq<Byte>, n: nat)
    requires |s| + 1 <= MaxLen && n <= MaxArgs
    ensures |s| + 1 < ThreeBytes && (Clean(s) <==> NoCrLf(s)) && PlainLength(n)
  {
  }

  lemma {:induction false} ValidClean(argv: seq<seq<Byte>>)
    requires ValidArgs(argv)
    ensures AllThreeBytes(argv) && (AllClean(argv) <==> PairFree(argv))
  {
    if argv != [] { ValidClean(argv[1..]); }
  }

  /**
   * Within the limits, the first CR LF of an encoded message is its last two bytes if and only if no
   * string of it contains CR LF.
   */
  lemma Termination(sub: seq<Byte>, argv: seq<seq<Byte>>)
    requires ValidString(sub) && ValidArgs(argv) && |argv| <= MaxArgs
    ensures var m := Message(sub, argv);
      EndsAt(m, |m| - 1) && (NoCrLf(m[..|m| - 1]) <==> NoCrLf(sub) && PairFree(argv))
  {
    SmallClean(sub, |argv|);
    ValidClean(argv);
    TerminationExact(sub, argv);
  }

  /** A string of 2572 bytes has CR LF in its length field. */
  lemma LongStringMisread(s: seq<Byte>)
    requires |s| == 2572
    ensures EndsAt(Item(s), 1)
  {
    ImageBytes(2573);
  }

  // ---- What fits the client's buffer ----

  function TotalLength(argv: seq<seq<Byte>>): (n: nat) {
    if argv == [] then 0 else |argv[0]| + TotalLength(argv[1..])
  }

  lemma {:induction false} ItemsSize(argv: seq<seq<Byte>>)
    ensures |Items(argv)| == TotalLength(argv) + 5 * |argv|
  {
    if argv != [] { ItemsSize(argv[1..]); }
  }

  /** A message fits the buffer exactly when its strings take at most 1013 bytes with 5 more for each argument. */
  lemma FitsBuffer(sub: seq<Byte>, argv: seq<seq<Byte>>)
    ensures |Message(sub, argv)| <= BufferSize <==> |sub| + TotalLength(argv) + 5 * |argv| <= 1013
  {
    ItemsSize(argv);
  }

  lemma {:induction false} LongestArgs(argv: seq<seq<Byte>>)
    requires forall i :: 0 <= i < |argv| ==> |argv[i]| == 31
    ensures TotalLength(argv) == 31 * |argv|
  {
    if argv != [] { LongestArgs(argv[1..]); }
  }

  /** The limits on the number and the lengths of arguments do not imply that: 32 arguments of 31 bytes. */
  lemma LimitsExceedBuffer(sub: seq<Byte>, argv: seq<seq<Byte>>)
    requires |argv| == MaxArgs && forall i :: 0 <= i < |argv| ==> |argv[i]| == 31
    ensures |Message(sub, argv)| > BufferSize
  {
    LongestArgs(argv);
    FitsBuffer(sub, argv);
  }

  lemma EndsIn(s: seq<Byte>, k: nat, i: int)
    requires k <= |s|
    ensures EndsAt(s, i) && i < k ==> !NoCrLf(s[..k])
  {
    if EndsAt(s, i) && i < k { assert EndsAt(s[..k], i); }
  }

  /** A reader stops exactly after a message that ends at its first CR LF. */
  lemma ReaderStops(m: seq<Byte>, stream: seq<Byte>, out: Reading, n: nat)
    requires m <= stream && |m| <= BufferSize && EndsAt(m, |m| - 1) && NoCrLf(m[..|m| - 1])
    requires Stopped(stream, out, n)
    ensures out == Complete && n == |m|
  {
    assert EndsAt(stream, |m| - 1);
    EndsIn(m, |m| - 1, n - 1);
    EndsIn(stream, if n > 0 then n - 1 else 0, |m| - 1);
    EndsIn(stream, n, |m| - 1);
    assert stream[..|stream|] == stream;
  }

  /** The server's side: read a request, decode it, and take the strings from the buffer. */
  method Serve(stream: seq<Byte>, cmd: array<Byte>) returns (out: Reading, n: nat, r: Option<Request>)
    requires cmd.Length == BufferSize
    modifies cmd
    ensures Stopped(stream, out, n) && cmd[..n] == stream[..n]
    ensures r == if out == Complete then Decode(cmd[..]) else None
  {
    out, n := ReadRequest(stream, cmd);
    r := None;
    if out == Complete { r := MsgDecode(cmd[..]); }
  }

  /** Any request within the limits arrives whole, whatever the client sends after it. */
  lemma Delivered(sub: seq<Byte>, argv: seq<seq<Byte>>, stream: seq<Byte>, cmd: seq<Byte>, out: Reading, n: nat)
    requires ValidString(sub) && ValidArgs(argv) && |argv| <= MaxArgs && |Message(sub, argv)| <= BufferSize
    requires NoCrLf(sub) && PairFree(argv) && Message(sub, argv) <= stream
    requires Stopped(stream, out, n) && |cmd| == BufferSize && cmd[..n] == stream[..n]
    ensures out == Complete && n == |Message(sub, argv)| && Decode(cmd).Some?
    ensures CString(cmd, Decode(cmd).value.sub) == sub && Designate(cmd, Decode(cmd).value.argv, argv)
  {
    var m := Message(sub, argv);
    Termination(sub, argv);
    ReaderStops(m, stream, out, n);
    assert cmd[0..n] == cmd[..n] == m;
    RoundTrip(cmd, sub, argv);
  }

  method Exchange(sub: seq<Byte>, argv: seq<seq<Byte>>, later: seq<Byte>) returns (cmd: array<Byte>, r: Option<Request>)
    requires ValidString(sub) && ValidArgs(argv) && |argv| <= MaxArgs && |Message(sub, argv)| <= BufferSize
    requires NoCrLf(sub) && PairFree(argv)
    ensures r.Some? && CString(cmd[..], r.value.sub) == sub && Designate(cmd[..], r.value.argv, argv)
  {
    var buffer := new Byte[BufferSize];
    cmd := new Byte[BufferSize];
    var len := MsgEncode(buffer, sub, argv);
    var stream := buffer[..len] + later;
    var out, n, request := Serve(stream, cmd);
    r := request;
    assert cmd[..][..n] == cmd[..n];
    Delivered(sub, argv, stream, cmd[..], out, n);
  }
}

/** What the bytes of a binary log mean: tagged arguments and length-framed records. */
module BinlogRecord {
  import opened Options
  import opened Windows
  import opened Bytes
  import opened BinlogFormat

  const BeginTag: Byte := 0xfd
  const EndTag: Byte := 0xff

  /** A double is known by the 64 bits of its representation. */
  datatype Arg =
    | IntArg(int32: int)
    | LongArg(int64: int)
    | DoubleArg(bits: int)
    | StringArg(chars: seq<Byte>)
    | PointerArg(address: int)

  ghost predicate ValidArg(a: Arg) {
    match a
    case IntArg(v) => FitsSigned(v, 4)
    case LongArg(v) => FitsSigned(v, 8)
    case DoubleArg(v) => FitsUnsigned(v, 8)
    case StringArg(s) => NulFree(s)
    case PointerArg(v) => FitsUnsigned(v, 8)
  }

  ghost predicate ValidArgs(args: seq<Arg>) {
    args != [] ==> ValidArg(args[0]) && ValidArgs(args[1..])
  }

  function KindOf(a: Arg): (k: Kind) {
    match a
    case IntArg(_) => KInt
    case LongArg(_) => KLong
    case DoubleArg(_) => KDouble
    case StringArg(_) => KString
    case PointerArg(_) => KPointer
  }

  function KindsOf(args: seq<Arg>): (ks: seq<Kind>)
    ensures |ks| == |args|
  {
    if args == [] then [] else [KindOf(args[0])] + KindsOf(args[1..])
  }

  function Tag(k: Kind): (t: Byte) {
    match k
    case KInt => 0
    case KLong => 1
    case KDouble => 2
    case KString => 3
    case KPointer => 4
  }

  function Payload(a: Arg): (s: seq<Byte>) {
    match a
    case IntArg(v) => Image(v, 4)
    case LongArg(v) => Image(v, 8)
    case DoubleArg(v) => Image(v, 8)
    case StringArg(s) => s + [0]
    case PointerArg(v) => Image(v, 8)
  }

  function Encode(a: Arg): (s: seq<Byte>) { [Tag(KindOf(a))] + Payload(a) }

  function EncodeAll(args: seq<Arg>): (s: seq<Byte>) {
    if args == [] then [] else Encode(args[0]) + EncodeAll(args[1..])
  }

  /** Storing an argument after others. */
  lemma {:induction false} EncodeAppend(args: seq<Arg>, a: Arg)
    ensures EncodeAll(args + [a]) == EncodeAll(args) + Encode(a)
    ensures KindsOf(args + [a]) == KindsOf(args) + [KindOf(a)]
  {
    if args == [] {
      assert args + [a] == [a];
    } else {
      assert (args + [a])[0] == args[0] && (args + [a])[1..] == args[1..] + [a];
      EncodeAppend(args[1..], a);
    }
  }

  lemma EncodeNext(args: seq<Arg>, i: nat)
    requires i < |args|
    ensures EncodeAll(args[..i + 1]) == EncodeAll(args[..i]) + Encode(args[i])
  {
    assert args[..i + 1] == args[..i] + [args[i]];
    EncodeAppend(args[..i], args[i]);
  }

  lemma {:induction false} EncodePrefix(args: seq<Arg>, i: nat, n: nat)
    requires i <= n <= |args|
    ensures |EncodeAll(args[..i])| <= |EncodeAll(args[..n])|
    decreases n
  {
    if i < n {
      EncodeNext(args, n - 1);
      EncodePrefix(args, i, n - 1);
    }
  }

  /** Arguments fetched, and where the cursor is left. */
  datatype Fetched = Fetched(arg: Arg, next: nat)
  datatype FetchedAll = FetchedAll(args: seq<Arg>, next: nat)

  /** How many bytes an argument of kind k takes after its tag, which is just before b. */
  function Size(k: Kind, b: seq<Byte>): (n: nat) {
    match k
    case KInt => 4
    case KString => StrLen(b) + 1
    case _ => 8
  }

  /** The bytes after a tag, without a string's terminator. */
  function Interpret(k: Kind, b: seq<Byte>): (a: Arg) {
    match k
    case KInt => IntArg(Signed(b))
    case KLong => LongArg(Signed(b))
    case KDouble => DoubleArg(Unsigned(b))
    case KString => StringArg(b)
    case KPointer => PointerArg(Unsigned(b))
  }

  /** From the tag at p in a record of len bytes; fails where the parser asserts. */
  function Fetch(k: Kind, b: seq<Byte>, p: nat, len: nat): (r: Option<Fetched>)
    requires len <= |b|
    ensures r.Some? ==> p < r.value.next <= len
  {
    if p + 1 > len then None else
      var n := Size(k, b[p + 1..]);
      if p + 1 + n > len || b[p] != Tag(k) then None
      else Some(Fetched(Interpret(k, b[p + 1..p + 1 + (if k == KString then n - 1 else n)]), p + 1 + n))
  }

  function FetchAll(ks: seq<Kind>, b: seq<Byte>, p: nat, len: nat): (r: Option<FetchedAll>)
    requires len <= |b|
    ensures r.Some? ==> |r.value.args| == |ks| && (p <= len ==> p <= r.value.next <= len)
  {
    if ks == [] then Some(FetchedAll([], p)) else
      match Fetch(ks[0], b, p, len)
      case None => None
      case Some(one) =>
        match FetchAll(ks[1..], b, one.next, len)
        case None => None
        case Some(more) => Some(FetchedAll([one.arg] + more.args, more.next))
  }

  // ---- What is stored is fetched back ----

  /** The bytes that carry the value. */
  function Value(a: Arg): (s: seq<Byte>) {
    if a.StringArg? then a.chars else Payload(a)
  }

  lemma ValueRead(a: Arg)
    requires ValidArg(a)
    ensures Interpret(KindOf(a), Value(a)) == a
  {
    match a {
      case IntArg(v) => SignedImage(v, 4);
      case LongArg(v) => SignedImage(v, 8);
      case DoubleArg(v) => UnsignedImage(v, 8);
      case StringArg(s) =>
      case PointerArg(v) => UnsignedImage(v, 8);
    }
  }

  lemma SizeRead(a: Arg, b: seq<Byte>)
    requires ValidArg(a) && |Payload(a)| <= |b| && b[..|Payload(a)|] == Payload(a)
    ensures Size(KindOf(a), b) == |Payload(a)|
    ensures b[..if a.StringArg? then |Payload(a)| - 1 else |Payload(a)|] == Value(a)
  {
    if a.StringArg? {
      var n := |a.chars|;
      assert b[..n] == b[..n + 1][..n] == a.chars;
      assert b[n] == b[..n + 1][n];
      StrLenUnique(b, n);
    }
  }

  lemma ArgFetched(a: Arg, b: seq<Byte>, p: nat, len: nat)
    requires ValidArg(a) && Stands(b, p, Encode(a)) && p + |Encode(a)| <= len <= |b|
    ensures Fetch(KindOf(a), b, p, len) == Some(Fetched(a, p + |Encode(a)|))
  {
    var n := |Payload(a)|;
    StandsSplit(b, p, [Tag(KindOf(a))], Payload(a));
    assert b[p] == b[p..p + 1][0];
    assert b[p + 1..][..n] == b[p + 1..p + 1 + n];
    SizeRead(a, b[p + 1..]);
    var m := if a.StringArg? then n - 1 else n;
    assert b[p + 1..][..m] == b[p + 1..p + 1 + m];
    ValueRead(a);
  }

  lemma FetchThen(k: Kind, ks: seq<Kind>, b: seq<Byte>, p: nat, len: nat, one: Fetched, more: FetchedAll)
    requires len <= |b| && Fetch(k, b, p, len) == Some(one) && FetchAll(ks, b, one.next, len) == Some(more)
    ensures FetchAll([k] + ks, b, p, len) == Some(FetchedAll([one.arg] + more.args, more.next))
  {
    assert ([k] + ks)[1..] == ks;
  }

  lemma ArgThen(a: Arg, ks: seq<Kind>, b: seq<Byte>, p: nat, q: nat, len: nat, more: FetchedAll)
    requires ValidArg(a) && Stands(b, p, Encode(a)) && q == p + |Encode(a)| <= len <= |b|
    requires FetchAll(ks, b, q, len) == Some(more)
    ensures FetchAll([KindOf(a)] + ks, b, p, len) == Some(FetchedAll([a] + more.args, more.next))
  {
    ArgFetched(a, b, p, len);
    FetchThen(KindOf(a), ks, b, p, len, Fetched(a, q), more);
  }

  lemma {:induction false} ArgsFetched(args: seq<Arg>, b: seq<Byte>, p: nat, q: nat, len: nat)
    requires ValidArgs(args)
    requires Stands(b, p, EncodeAll(args)) && q == p + |EncodeAll(args)| <= len <= |b|
    ensures FetchAll(KindsOf(args), b, p, len) == Some(FetchedAll(args, q))
  {
    if args != [] {
      var a, others := args[0], args[1..];
      assert [a] + others == args && EncodeAll(args) == Encode(a) + EncodeAll(others);
      assert KindsOf(args) == [KindOf(a)] + KindsOf(others);
      StandsSplit(b, p, Encode(a), EncodeAll(others));
      var n := p + |Encode(a)|;
      ArgsFetched(others, b, n, q, len);
      ArgThen(a, KindsOf(others), b, p, n, len, FetchedAll(others, q));
    }
  }

  // ---- Nothing else is fetched ----

  lemma InterpretExact(k: Kind, s: seq<Byte>)
    requires |s| == if k == KInt then 4 else 8
    ensures k != KString ==> var a := Interpret(k, s); ValidArg(a) && KindOf(a) == k && Payload(a) == s
  {
    ValueImage(s);
  }

  lemma StringExact(b: seq<Byte>, q: nat, n: nat)
    requires q <= |b| && n == StrLen(b[q..]) && q + n < |b|
    ensures NulFree(b[q..q + n]) && Stands(b, q, b[q..q + n] + [0])
  {
    assert b[q..][..n] == b[q..q + n];
    assert b[q..][n] == b[q + n];
    assert b[q..q + n + 1] == b[q..q + n] + [b[q + n]];
  }

  /** Whatever is fetched as of kind k is an argument of that kind whose stored bytes stand there, within
      the record. With ArgFetched: fetching succeeds exactly when such an argument stands there. */
  lemma {:induction false} FetchedStands(k: Kind, b: seq<Byte>, p: nat, len: nat)
    requires len <= |b| && Fetch(k, b, p, len).Some?
    ensures var one := Fetch(k, b, p, len).value;
      ValidArg(one.arg) && KindOf(one.arg) == k && Stands(b, p, Encode(one.arg))
      && one.next == p + |Encode(one.arg)| <= len
  {
    FetchParts(k, b, p, len);
    var one := Fetch(k, b, p, len).value;
    if k == KString { StringThere(b, p, one); } else { ScalarThere(k, b, p, one); }
  }

  /** What fetching has tested and read. */
  lemma {:induction false} FetchParts(k: Kind, b: seq<Byte>, p: nat, len: nat)
    requires len <= |b| && Fetch(k, b, p, len).Some?
    ensures var one := Fetch(k, b, p, len).value;
      && p + 1 < one.next <= len && b[p] == Tag(k)
      && (if k == KString then one.next == p + 2 + StrLen(b[p + 1..]) && one.arg == StringArg(b[p + 1..one.next - 1])
          else one.next == p + 1 + (if k == KInt then 4 else 8) && one.arg == Interpret(k, b[p + 1..one.next]))
  {
  }

  lemma {:induction false} StringThere(b: seq<Byte>, p: nat, one: Fetched)
    requires p + 1 < one.next <= |b| && b[p] == Tag(KString) && one.next == p + 2 + StrLen(b[p + 1..])
    requires one.arg == StringArg(b[p + 1..one.next - 1])
    ensures ValidArg(one.arg) && Stands(b, p, Encode(one.arg)) && one.next == p + |Encode(one.arg)|
  {
    StringExact(b, p + 1, one.next - p - 2);
    Assemble(KString, b, p, one.arg.chars + [0], one.arg);
  }

  lemma {:induction false} ScalarThere(k: Kind, b: seq<Byte>, p: nat, one: Fetched)
    requires k != KString && one.next == p + 1 + (if k == KInt then 4 else 8) <= |b| && b[p] == Tag(k)
    requires one.arg == Interpret(k, b[p + 1..one.next])
    ensures ValidArg(one.arg) && KindOf(one.arg) == k && Stands(b, p, Encode(one.arg))
    ensures one.next == p + |Encode(one.arg)|
  {
    InterpretExact(k, b[p + 1..one.next]);
    Assemble(k, b, p, b[p + 1..one.next], one.arg);
  }

  lemma {:induction false} Assemble(k: Kind, b: seq<Byte>, p: nat, s: seq<Byte>, a: Arg)
    requires p < |b| && b[p] == Tag(k) && Stands(b, p + 1, s) && KindOf(a) == k && Payload(a) == s
    ensures Stands(b, p, Encode(a)) && |Encode(a)| == 1 + |s|
  {
    assert b[p..p + 1 + |s|] == [b[p]] + b[p + 1..p + 1 + |s|];
  }

  lemma TagsDiffer(k: Kind, l: Kind)
    requires Tag(k) == Tag(l)
    ensures k == l
  {
  }

  /** The first byte decides: no argument is fetched as of another kind, */
  lemma WrongKind(a: Arg, k: Kind, b: seq<Byte>, p: nat, len: nat)
    requires Stands(b, p, Encode(a)) && k != KindOf(a) && len <= |b|
    ensures Fetch(k, b, p, len) == None
  {
    StandsAt(b, p, Encode(a), 0);
    if Fetch(k, b, p, len).Some? {
      FetchedStands(k, b, p, len);
      StandsAt(b, p, Encode(Fetch(k, b, p, len).value.arg), 0);
      TagsDiffer(k, KindOf(a));
    }
  }

  /** and none from the end of the record. */
  lemma NothingLeft(k: Kind, b: seq<Byte>, p: nat, len: nat)
    requires p < |b| && b[p] == EndTag && len <= |b|
    ensures Fetch(k, b, p, len) == None
  {
    if Fetch(k, b, p, len).Some? {
      FetchedStands(k, b, p, len);
      StandsAt(b, p, Encode(Fetch(k, b, p, len).value.arg), 0);
    }
  }

  lemma KindsPrefix(k: Kind, ks: seq<Kind>, a: Arg, args: seq<Arg>)
    ensures [k] + ks <= KindsOf([a] + args) <==> k == KindOf(a) && ks <= KindsOf(args)
  {
    assert ([a] + args)[1..] == args;
    var x, y := [k] + ks, [KindOf(a)] + KindsOf(args);
    assert KindsOf([a] + args) == y;
    if x <= y {
      assert x[0] == y[0];
      assert ks == x[1..] && KindsOf(args) == y[1..] && x[1..] <= y[1..];
    }
  }

  /** The first |ks| arguments from p on, if these are their types. */
  ghost function Firsts(args: seq<Arg>, ks: seq<Kind>, p: nat): (r: Option<FetchedAll>) {
    if ks <= KindsOf(args) then Some(FetchedAll(args[..|ks|], p + |EncodeAll(args[..|ks|])|)) else None
  }

  /** One argument in front of others. */
  function Cons(a: Arg, more: Option<FetchedAll>): (r: Option<FetchedAll>) {
    if more.None? then None else Some(FetchedAll([a] + more.value.args, more.value.next))
  }

  lemma {:induction false} FirstsNext(a: Arg, others: seq<Arg>, k: Kind, ks: seq<Kind>, p: nat)
    ensures Firsts([a] + others, [k] + ks, p)
      == if k == KindOf(a) then Cons(a, Firsts(others, ks, p + |Encode(a)|)) else None
  {
    KindsPrefix(k, ks, a, others);
    if ks <= KindsOf(others) { FirstArgs(a, others, |ks|); }
  }

  lemma {:induction false} FetchStops(k: Kind, ks: seq<Kind>, b: seq<Byte>, p: nat, len: nat)
    requires len <= |b| && Fetch(k, b, p, len) == None
    ensures FetchAll([k] + ks, b, p, len) == None
  {
  }

  lemma {:induction false} FetchThenNone(k: Kind, ks: seq<Kind>, b: seq<Byte>, p: nat, len: nat, one: Fetched)
    requires len <= |b| && Fetch(k, b, p, len) == Some(one) && FetchAll(ks, b, one.next, len) == None
    ensures FetchAll([k] + ks, b, p, len) == None
  {
    assert ([k] + ks)[1..] == ks;
  }

  lemma {:induction false} ArgThenNone(a: Arg, ks: seq<Kind>, b: seq<Byte>, p: nat, q: nat, len: nat)
    requires ValidArg(a) && Stands(b, p, Encode(a)) && q == p + |Encode(a)| <= len <= |b|
    requires FetchAll(ks, b, q, len) == None
    ensures FetchAll([KindOf(a)] + ks, b, p, len) == None
  {
    ArgFetched(a, b, p, len);
    FetchThenNone(KindOf(a), ks, b, p, len, Fetched(a, q));
  }

  /** One argument more in front of what is fetched from q on. */
  lemma {:induction false} FetchNext(a: Arg, k: Kind, ks: seq<Kind>, b: seq<Byte>, p: nat, q: nat, len: nat,
      more: Option<FetchedAll>)
    requires ValidArg(a) && Stands(b, p, Encode(a)) && q == p + |Encode(a)| <= len <= |b|
    requires FetchAll(ks, b, q, len) == more
    ensures FetchAll([k] + ks, b, p, len) == if k == KindOf(a) then Cons(a, more) else None
  {
    if k != KindOf(a) {
      WrongKind(a, k, b, p, len);
      FetchStops(k, ks, b, p, len);
    } else if more.None? {
      ArgThenNone(a, ks, b, p, q, len);
    } else {
      ArgThen(a, ks, b, p, q, len, more.value);
    }
  }

  /** Nothing is asked for, or nothing is there. */
  lemma {:induction false} FetchEnds(args: seq<Arg>, ks: seq<Kind>, b: seq<Byte>, p: nat, len: nat)
    requires ks == [] || (args == [] && p < |b| && b[p] == EndTag)
    requires len <= |b|
    ensures FetchAll(ks, b, p, len) == Firsts(args, ks, p)
  {
    if ks == [] { assert args[..0] == []; } else { NothingLeft(ks[0], b, p, len); }
  }

  /**
   * Where a record's arguments and its end tag stand, fetching by any types succeeds if and only if these are
   * the types of the first arguments; it is refused at the first argument of another type, or at the end tag.
   */
  lemma {:induction false} FetchExact(args: seq<Arg>, ks: seq<Kind>, b: seq<Byte>, p: nat, len: nat)
    requires ValidArgs(args) && Stands(b, p, EncodeAll(args)) && p + |EncodeAll(args)| < len <= |b|
    requires b[p + |EncodeAll(args)|] == EndTag
    ensures FetchAll(ks, b, p, len) == Firsts(args, ks, p)
    decreases |ks|
  {
    if ks == [] || args == [] {
      FetchEnds(args, ks, b, p, len);
    } else {
      var a, others := args[0], args[1..];
      var q := p + |Encode(a)|;
      assert [ks[0]] + ks[1..] == ks && [a] + others == args && EncodeAll(args) == Encode(a) + EncodeAll(others);
      StandsSplit(b, p, Encode(a), EncodeAll(others));
      FetchExact(others, ks[1..], b, q, len);
      FetchNext(a, ks[0], ks[1..], b, p, q, len, Firsts(others, ks[1..], q));
      FirstsNext(a, others, ks[0], ks[1..], p);
    }
  }

  lemma FirstArgs(a: Arg, others: seq<Arg>, n: nat)
    requires n <= |others|
    ensures var first := ([a] + others)[..n + 1];
      first == [a] + others[..n] && |EncodeAll(first)| == |Encode(a)| + |EncodeAll(others[..n])|
  {
    var first := ([a] + others)[..n + 1];
    assert first == [a] + others[..n];
    assert first[1..] == others[..n];
  }

  // ---- Records ----

  datatype Record = Record(level: Byte, func: seq<Byte>, line: int, thread: int, time: int, args: seq<Arg>)

  ghost predicate ValidRecord(r: Record) {
    NulFree(r.func) && FitsSigned(r.line, 4) && FitsUnsigned(r.thread, 8) && FitsSigned(r.time, 8)
    && ValidArgs(r.args)
  }

  /** Level, function, line, thread and time. */
  function Header(r: Record): (s: seq<Byte>)
    ensures |s| == |r.func| + 22
  {
    [r.level] + r.func + [0] + Image(r.line, 4) + Image(r.thread, 8) + Image(r.time, 8)
  }

  /** Counts every byte of the record, the tags and the length field included. */
  function Length(r: Record): (n: nat) { 1 + 4 + |Header(r)| + |EncodeAll(r.args)| + 1 }

  function RecordBytes(r: Record): (s: seq<Byte>)
    ensures |s| == Length(r)
  {
    [BeginTag] + Image(Length(r), 4) + Header(r) + EncodeAll(r.args) + [EndTag]
  }

  function LogBytes(rs: seq<Record>): (s: seq<Byte>) {
    if rs == [] then [] else RecordBytes(rs[0]) + LogBytes(rs[1..])
  }

  lemma {:induction false} LogAppend(rs: seq<Record>, r: Record)
    ensures LogBytes(rs + [r]) == LogBytes(rs) + RecordBytes(r)
  {
    if rs == [] {
      assert rs + [r] == [r];
    } else {
      assert (rs + [r])[0] == rs[0] && (rs + [r])[1..] == rs[1..] + [r];
      LogAppend(rs[1..], r);
    }
  }
}

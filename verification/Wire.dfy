/**
 The byte encodings that requests are made of (types/src/bytesrepr.rs): readers that hand
 back the rest of their input, and a writer that appends.
 */
module Wire {
  import opened Bytes
  import opened LittleEndian

  const U32_LIMIT := 0x1_0000_0000

  datatype WireError = EarlyEndOfStream | Formatting | LeftOverBytes | OutOfMemory | NotRepresentable

  /** What a reader finds at the front of its input, and the input after it. */
  datatype Parsed<+T> = Ok(value: T, rest: Bytes) | Err(error: WireError) {
    predicate IsFailure() { Err? }
    function PropagateFailure<U>(): Parsed<U> requires Err? { Err(error) }
    function Extract(): (T, Bytes) requires Ok? { (value, rest) }
  }

  // ---- types whose own encoding is not modelled ----

  datatype Kind =
    KeyKind | PublicKeyKind | URefKind | TransactionKind | TransactionHashKind
    | StateIdentifierKind | BlockIdentifierKind | DelegatorKind

  /** A value of such a type, named by its encoding. */
  type Opaque = Bytes

  /** The readers of those types, and which bytes are UTF-8. */
  datatype Grammar = Grammar(read: (Kind, Bytes) -> Parsed<Opaque>, utf8: Bytes -> bool)

  /**
   These bytes are read as the value, whatever follows them. They need not be its encoding:
   keys have padding that is not looked at, and sets may come in any order.
   */
  ghost predicate Spells(g: Grammar, k: Kind, p: Bytes, v: Opaque) {
    forall rest :: g.read(k, p + rest) == Ok(v, rest)
  }

  /** Round-trip law of a value: its encoding spells it. */
  ghost predicate ValidOpaque(g: Grammar, k: Kind, v: Opaque) {
    Spells(g, k, v, v)
  }

  /** Readers take a spelling off the front of their input and look no further. */
  ghost predicate Delimiting(g: Grammar) {
    forall k, s :: g.read(k, s).Ok? ==> TakesSpelling(g, k, s)
  }

  ghost predicate TakesSpelling(g: Grammar, k: Kind, s: Bytes)
    requires g.read(k, s).Ok?
  {
    var p := g.read(k, s);
    |p.rest| <= |s| && s[|s| - |p.rest|..] == p.rest && Spells(g, k, s[..|s| - |p.rest|], p.value)
  }

  /** The spelling that was taken off. */
  lemma Spelled(g: Grammar, k: Kind, s: Bytes) returns (p: Bytes)
    requires Delimiting(g) && g.read(k, s).Ok?
    ensures Spells(g, k, p, g.read(k, s).value) && p + g.read(k, s).rest == s
  {
    assert TakesSpelling(g, k, s);
    p := s[..|s| - |g.read(k, s).rest|];
  }

  // ---- readers ----

  function U8(s: Bytes): Parsed<byte> {
    if s == [] then Err(EarlyEndOfStream) else Ok(s[0], s[1..])
  }

  function Fixed(n: nat, s: Bytes): Parsed<Bytes> {
    if n > |s| then Err(EarlyEndOfStream) else Ok(s[..n], s[n..])
  }

  function Int(width: nat, s: Bytes): Parsed<nat> {
    var (b, rest) :- Fixed(width, s);
    Ok(FromLe(b), rest)
  }

  function Bool(s: Bytes): Parsed<bool> {
    var (b, rest) :- U8(s);
    if b == 1 then Ok(true, rest) else if b == 0 then Ok(false, rest) else Err(Formatting)
  }

  /** A byte string or vector of bytes behind its 32-bit length. */
  function Blob(s: Bytes): Parsed<Bytes> {
    var (n, rest) :- Int(4, s);
    Fixed(n, rest)
  }

  /** A string, named by its UTF-8 bytes. */
  function Text(g: Grammar, s: Bytes): Parsed<Bytes> {
    var (b, rest) :- Blob(s);
    if g.utf8(b) then Ok(b, rest) else Err(Formatting)
  }

  function OptionOf<T>(read: Bytes -> Parsed<T>, s: Bytes): Parsed<Option<T>> {
    var (tag, rest) :- U8(s);
    if tag == 0 then Ok(None, rest)
    else if tag == 1 then
      var (v, rest') :- read(rest);
      Ok(Some(v), rest')
    else Err(Formatting)
  }

  function OptionalOpaque(g: Grammar, k: Kind, s: Bytes): Parsed<Option<Opaque>> {
    OptionOf(r => g.read(k, r), s)
  }

  function Texts(g: Grammar, count: nat, s: Bytes): Parsed<seq<Bytes>> {
    if count == 0 then Ok([], s)
    else
      var (ts, rest) :- Texts(g, count - 1, s);
      var (t, rest') :- Text(g, rest);
      Ok(ts + [t], rest')
  }

  function TextList(g: Grammar, s: Bytes): Parsed<seq<Bytes>> {
    var (count, rest) :- Int(4, s);
    Texts(g, count, rest)
  }

  /** The loop over the elements of a vector, which stops at the first that fails. */
  method ReadTextList(g: Grammar, s: Bytes) returns (r: Parsed<seq<Bytes>>)
    ensures r == TextList(g, s)
  {
    var head := Int(4, s);
    if head.Err? {
      return Err(head.error);
    }
    var (count, stream) := head.Extract();
    if count == 0 {
      return Ok([], stream);
    }
    var result := [];
    for i := 0 to count
      invariant Texts(g, i, head.rest) == Ok(result, stream)
    {
      var t := Text(g, stream);
      if t.Err? {
        TextsFail(g, i + 1, count, head.rest);
        return Err(t.error);
      }
      result, stream := result + [t.value], t.rest;
    }
    r := Ok(result, stream);
  }

  lemma {:induction false} TextsFail(g: Grammar, i: nat, count: nat, s: Bytes)
    requires i <= count && Texts(g, i, s).Err?
    ensures Texts(g, count, s) == Err(Texts(g, i, s).error)
  {
    if i < count {
      TextsFail(g, i, count - 1, s);
    }
  }

  // ---- encodings ----

  function BoolBytes(b: bool): Bytes {
    [if b then 1 else 0]
  }

  function BlobBytes(b: Bytes): (r: Bytes)
    ensures |r| == 4 + |b|
  {
    ToLe(|b|, 4) + b
  }

  function OptionBytes<T>(o: Option<T>, write: T -> Bytes): Bytes {
    if o.None? then [0] else [1] + write(o.value)
  }

  function OptionalOpaqueBytes(o: Option<Opaque>): Bytes {
    OptionBytes(o, v => v)
  }

  function TextsSize(ts: seq<Bytes>): nat {
    if ts == [] then 0 else TextsSize(ts[..|ts| - 1]) + 4 + |ts[|ts| - 1]|
  }

  function TextsBytes(ts: seq<Bytes>): (r: Bytes)
    ensures |r| == TextsSize(ts) && TextsSize(ts) >= 4 * |ts|
  {
    if ts == [] then [] else TextsBytes(ts[..|ts| - 1]) + BlobBytes(ts[|ts| - 1])
  }

  function TextListBytes(ts: seq<Bytes>): (r: Bytes)
    ensures |r| == 4 + TextsSize(ts)
  {
    ToLe(|ts|, 4) + TextsBytes(ts)
  }

  ghost predicate ValidText(g: Grammar, t: Bytes) {
    g.utf8(t) && |t| < U32_LIMIT
  }

  ghost predicate ValidTexts(g: Grammar, ts: seq<Bytes>) {
    |ts| < U32_LIMIT && forall t | t in ts :: ValidText(g, t)
  }

  /** `r` is `o` with its value spelled in some way. */
  ghost predicate MeansOption(g: Grammar, k: Kind, r: Option<Opaque>, o: Option<Opaque>) {
    r.Some? == o.Some? && (o.Some? ==> Spells(g, k, r.value, o.value))
  }

  // ---- what is written reads back, whatever follows ----

  lemma FixedReads(b: Bytes, rest: Bytes)
    ensures Fixed(|b|, b + rest) == Ok(b, rest)
  {
  }

  lemma U32Limit()
    ensures Limit(4) == U32_LIMIT && Limit(2) == 0x1_0000 && Limit(8) == 0x1_0000_0000_0000_0000
  {
    assert Limit(1) == 256 && Limit(2) == 0x1_0000 && Limit(3) == 0x100_0000 && Limit(4) == U32_LIMIT;
    assert Limit(5) == 256 * U32_LIMIT && Limit(6) == 0x1_0000 * U32_LIMIT && Limit(7) == 0x100_0000 * U32_LIMIT;
  }

  lemma IntReads(n: nat, width: nat, rest: Bytes)
    requires n < Limit(width)
    ensures Int(width, ToLe(n, width) + rest) == Ok(n, rest)
  {
    ReadBackExact(n, width);
    FixedReads(ToLe(n, width), rest);
  }

  lemma BlobReads(b: Bytes, rest: Bytes)
    requires |b| < U32_LIMIT
    ensures Blob(BlobBytes(b) + rest) == Ok(b, rest)
  {
    U32Limit();
    Assoc(ToLe(|b|, 4), b, rest);
    IntReads(|b|, 4, b + rest);
    FixedReads(b, rest);
  }

  lemma TextReads(g: Grammar, t: Bytes, rest: Bytes)
    requires ValidText(g, t)
    ensures Text(g, BlobBytes(t) + rest) == Ok(t, rest)
  {
    BlobReads(t, rest);
  }

  lemma TagReads(tag: byte, body: Bytes, rest: Bytes)
    ensures U8([tag] + body + rest) == Ok(tag, body + rest)
  {
    Assoc([tag], body, rest);
  }

  lemma OptionReads(g: Grammar, k: Kind, r: Option<Opaque>, o: Option<Opaque>, rest: Bytes)
    requires MeansOption(g, k, r, o)
    ensures OptionalOpaque(g, k, OptionalOpaqueBytes(r) + rest) == Ok(o, rest)
  {
    if o.Some? {
      TagReads(1, r.value, rest);
    }
  }

  lemma {:induction false} TextsRead(g: Grammar, ts: seq<Bytes>, rest: Bytes)
    requires forall t | t in ts :: ValidText(g, t)
    ensures Texts(g, |ts|, TextsBytes(ts) + rest) == Ok(ts, rest)
  {
    if ts != [] {
      var front, last := ts[..|ts| - 1], ts[|ts| - 1];
      assert last in ts && ts == front + [last];
      Assoc(TextsBytes(front), BlobBytes(last), rest);
      TextsRead(g, front, BlobBytes(last) + rest);
      TextReads(g, last, rest);
      TextsStep(g, |front|, TextsBytes(ts) + rest, BlobBytes(last) + rest);
    }
  }

  lemma TextsStep(g: Grammar, count: nat, s: Bytes, mid: Bytes)
    requires Texts(g, count, s).Ok? && Texts(g, count, s).rest == mid && Text(g, mid).Ok?
    ensures Texts(g, count + 1, s) == Ok(Texts(g, count, s).value + [Text(g, mid).value], Text(g, mid).rest)
  {
  }

  lemma TextListReads(g: Grammar, ts: seq<Bytes>, rest: Bytes)
    requires ValidTexts(g, ts)
    ensures TextList(g, TextListBytes(ts) + rest) == Ok(ts, rest)
  {
    U32Limit();
    Assoc(ToLe(|ts|, 4), TextsBytes(ts), rest);
    IntReads(|ts|, 4, TextsBytes(ts) + rest);
    TextsRead(g, ts, rest);
  }

  // ---- what is read was written so ----

  lemma IntExact(width: nat, s: Bytes)
    requires Int(width, s).Ok?
    ensures var p := Int(width, s);
            p.value < Limit(width) && ToLe(p.value, width) + p.rest == s
  {
    WriteBack(s[..width]);
  }

  lemma BlobExact(s: Bytes)
    requires Blob(s).Ok?
    ensures var p := Blob(s);
            |p.value| < U32_LIMIT && BlobBytes(p.value) + p.rest == s
  {
    U32Limit();
    IntExact(4, s);
    var p := Blob(s);
    Assoc(ToLe(|p.value|, 4), p.value, p.rest);
  }

  lemma BoolExact(s: Bytes)
    requires Bool(s).Ok?
    ensures BoolBytes(Bool(s).value) + Bool(s).rest == s
  {
  }

  lemma OptionExact(g: Grammar, k: Kind, s: Bytes) returns (r: Option<Opaque>)
    requires Delimiting(g) && OptionalOpaque(g, k, s).Ok?
    ensures var p := OptionalOpaque(g, k, s);
            MeansOption(g, k, r, p.value) && OptionalOpaqueBytes(r) + p.rest == s
  {
    var p := OptionalOpaque(g, k, s);
    r := None;
    if p.value.Some? {
      var q := Spelled(g, k, s[1..]);
      r := Some(q);
      Assoc([1], q, p.rest);
    }
  }

  lemma {:induction false} TextsExact(g: Grammar, count: nat, s: Bytes)
    requires Texts(g, count, s).Ok?
    ensures var p := Texts(g, count, s);
            |p.value| == count && (forall t | t in p.value :: ValidText(g, t)) && TextsBytes(p.value) + p.rest == s
  {
    if count > 0 {
      var front := Texts(g, count - 1, s);
      TextsExact(g, count - 1, s);
      BlobExact(front.rest);
      var p := Texts(g, count, s);
      assert p.value[..count - 1] == front.value;
      Assoc(TextsBytes(front.value), BlobBytes(p.value[count - 1]), p.rest);
    }
  }

  lemma TextListExact(g: Grammar, s: Bytes)
    requires TextList(g, s).Ok?
    ensures var p := TextList(g, s);
            ValidTexts(g, p.value) && TextListBytes(p.value) + p.rest == s
  {
    U32Limit();
    IntExact(4, s);
    var count := Int(4, s);
    TextsExact(g, count.value, count.rest);
    Assoc(ToLe(count.value, 4), TextsBytes(TextList(g, s).value), TextList(g, s).rest);
  }

  // ---- the writer ----

  /** The growing vector that encodings are appended to. */
  class Writer {
    var bytes: Bytes

    constructor ()
      ensures bytes == []
    {
      bytes := [];
    }

    method Push(b: byte)
      modifies this
      ensures bytes == old(bytes) + [b]
    {
      bytes := bytes + [b];
    }

    method Extend(more: Bytes)
      modifies this
      ensures bytes == old(bytes) + more
    {
      bytes := bytes + more;
    }

    /** Fails, writing nothing, when the length does not fit 32 bits. */
    method WriteBlob(b: Bytes) returns (error: Option<WireError>)
      modifies this
      ensures |b| < U32_LIMIT ==> error.None? && bytes == old(bytes) + BlobBytes(b)
      ensures |b| >= U32_LIMIT ==> error == Some(NotRepresentable) && bytes == old(bytes)
    {
      if |b| >= U32_LIMIT {
        return Some(NotRepresentable);
      }
      Extend(ToLe(|b|, 4));
      Extend(b);
      Assoc(old(bytes), ToLe(|b|, 4), b);
      return None;
    }

    method WriteOption(o: Option<Opaque>)
      modifies this
      ensures bytes == old(bytes) + OptionalOpaqueBytes(o)
    {
      if o.None? {
        Push(0);
      } else {
        Push(1);
        Extend(o.value);
        Assoc(old(bytes), [1], o.value);
      }
    }

    method WriteTextList(ts: seq<Bytes>) returns (error: Option<WireError>)
      modifies this
      ensures error.None? ==> bytes == old(bytes) + TextListBytes(ts)
      ensures TextsSize(ts) < U32_LIMIT ==> error.None?
    {
      if |ts| >= U32_LIMIT {
        TextsLong(ts);
        return Some(NotRepresentable);
      }
      Extend(ToLe(|ts|, 4));
      for i := 0 to |ts|
        invariant bytes == old(bytes) + (ToLe(|ts|, 4) + TextsBytes(ts[..i]))
      {
        TextsPart(ts, i);
        error := WriteBlob(ts[i]);
        if error.Some? {
          return;
        }
        assert ts[..i + 1][..i] == ts[..i];
        Assoc(ToLe(|ts|, 4), TextsBytes(ts[..i]), BlobBytes(ts[i]));
        Assoc(old(bytes), ToLe(|ts|, 4) + TextsBytes(ts[..i]), BlobBytes(ts[i]));
      }
      assert ts[..|ts|] == ts;
      error := None;
    }
  }

  lemma TextsLong(ts: seq<Bytes>)
    ensures TextsSize(ts) >= 4 * |ts|
  {
    var _ := TextsBytes(ts);
  }

  lemma {:induction false} TextsPart(ts: seq<Bytes>, i: nat)
    requires i < |ts|
    ensures |ts[i]| <= TextsSize(ts)
  {
    if i < |ts| - 1 {
      TextsPart(ts[..|ts| - 1], i);
    }
  }
}

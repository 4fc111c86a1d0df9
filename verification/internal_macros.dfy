/**
 * `impl_consensus_encoding!` (src/internal_macros.rs): a record is encoded as its fields in
 * declared order, summing the byte counts and stopping at the first failing field, and decoded
 * field by field from one source in the same order, stopping at the first failing field.
 *
 * The record is modelled generically as the sequence of its field values (of a type V that
 * covers every field type), with one codec per declared field.
 */
module RecordCodec {
  import opened Integers
  import opened Wrappers
  import opened Errors

  /** One field's `consensus_encode`: the bytes written and the count returned, or the bytes written before the error. */
  datatype EncodeStep = Wrote(bytes: seq<u8>, count: nat) | WriteFailed(partial: seq<u8>, error: Error)

  /** One field's `consensus_decode`: the value and the bytes read, or the bytes read before the error. */
  datatype DecodeStep<V> = Decoded(value: V, consumed: nat) | DecodeFailed(consumed: nat, error: Error)

  /** The `Encodable` / `Decodable` pair of one field's type. */
  datatype FieldCodec<!V> = FieldCodec(encode: V -> EncodeStep, decode: seq<u8> -> DecodeStep<V>)

  /** A codec reads no more than it is given. */
  ghost predicate ReadsWithin<V>(c: FieldCodec<V>)
  {
    forall input :: c.decode(input).consumed <= |input|
  }

  ghost predicate AllReadWithin<V>(codecs: seq<FieldCodec<V>>)
  {
    forall i :: 0 <= i < |codecs| ==> ReadsWithin(codecs[i])
  }

  /** A codec's decoder reads back exactly what its encoder wrote, whatever follows it. */
  ghost predicate RoundTrips<V(!new)>(c: FieldCodec<V>)
  {
    forall v, rest: seq<u8> {:trigger c.decode(c.encode(v).bytes + rest)} ::
      c.encode(v).Wrote? ==> c.decode(c.encode(v).bytes + rest) == Decoded(v, |c.encode(v).bytes|)
  }

  /** Every codec reports as its count the number of bytes it wrote. */
  ghost predicate CountsBytes<V(!new)>(codecs: seq<FieldCodec<V>>)
  {
    forall i, v :: 0 <= i < |codecs| && codecs[i].encode(v).Wrote? ==> codecs[i].encode(v).count == |codecs[i].encode(v).bytes|
  }

  /** Encoding a record: each field in declared order; the first failure ends the encoding. */
  function EncodeFields<V>(codecs: seq<FieldCodec<V>>, values: seq<V>): (r: EncodeStep)
    requires |codecs| == |values|
    ensures r.Wrote? <==> forall i :: 0 <= i < |codecs| ==> codecs[i].encode(values[i]).Wrote?
  {
    if |codecs| == 0 then Wrote([], 0)
    else
      var n := |codecs| - 1;
      match EncodeFields(codecs[..n], values[..n])
      case WriteFailed(p, e) => WriteFailed(p, e)
      case Wrote(b, c) =>
        match codecs[n].encode(values[n])
        case Wrote(b', c') => Wrote(b + b', c + c')
        case WriteFailed(p, e) => WriteFailed(b + p, e)
  }

  /** Decoding a record: each field in declared order from where the previous one stopped. */
  function DecodeFields<V>(codecs: seq<FieldCodec<V>>, input: seq<u8>): (r: DecodeStep<seq<V>>)
    requires AllReadWithin(codecs)
    ensures r.consumed <= |input|
    ensures r.Decoded? ==> |r.value| == |codecs|
  {
    if |codecs| == 0 then Decoded([], 0)
    else
      var n := |codecs| - 1;
      match DecodeFields(codecs[..n], input)
      case DecodeFailed(k, e) => DecodeFailed(k, e)
      case Decoded(vs, k) =>
        match codecs[n].decode(input[k..])
        case Decoded(v, k') => Decoded(vs + [v], k + k')
        case DecodeFailed(k', e) => DecodeFailed(k + k', e)
  }

  /** Once a field fails to encode, the record fails with that error and no later field is written. */
  lemma {:induction false} EncodeStopsAtFailure<V>(codecs: seq<FieldCodec<V>>, values: seq<V>, j: nat)
    requires |codecs| == |values| && j < |codecs|
    requires EncodeFields(codecs[..j], values[..j]).Wrote?
    requires codecs[j].encode(values[j]).WriteFailed?
    ensures EncodeFields(codecs, values)
         == WriteFailed(EncodeFields(codecs[..j], values[..j]).bytes + codecs[j].encode(values[j]).partial,
                        codecs[j].encode(values[j]).error)
    decreases |codecs|
  {
    var n := |codecs| - 1;
    if j < n {
      assert codecs[..n][..j] == codecs[..j] && values[..n][..j] == values[..j];
      EncodeStopsAtFailure(codecs[..n], values[..n], j);
    } else {
      assert codecs[..n] == codecs[..j] && values[..n] == values[..j];
    }
  }

  /** The bytes of a record are the bytes of its first fields followed by those of the last. */
  lemma {:induction false} EncodeAppendsField<V>(codecs: seq<FieldCodec<V>>, values: seq<V>)
    requires |codecs| == |values| && |codecs| > 0
    requires EncodeFields(codecs, values).Wrote?
    ensures EncodeFields(codecs[..|codecs| - 1], values[..|codecs| - 1]).Wrote?
    ensures codecs[|codecs| - 1].encode(values[|codecs| - 1]).Wrote?
    ensures EncodeFields(codecs, values).bytes
         == EncodeFields(codecs[..|codecs| - 1], values[..|codecs| - 1]).bytes + codecs[|codecs| - 1].encode(values[|codecs| - 1]).bytes
    ensures EncodeFields(codecs, values).count
         == EncodeFields(codecs[..|codecs| - 1], values[..|codecs| - 1]).count + codecs[|codecs| - 1].encode(values[|codecs| - 1]).count
  {
  }

  /** When every field reports the bytes it wrote, the record's count is the number of bytes written. */
  lemma {:induction false} EncodeCountIsLength<V(!new)>(codecs: seq<FieldCodec<V>>, values: seq<V>)
    requires |codecs| == |values| && CountsBytes(codecs)
    requires EncodeFields(codecs, values).Wrote?
    ensures EncodeFields(codecs, values).count == |EncodeFields(codecs, values).bytes|
  {
    if |codecs| > 0 {
      var n := |codecs| - 1;
      assert forall i, v :: 0 <= i < n && codecs[..n][i].encode(v).Wrote? ==> codecs[i].encode(v).Wrote?;
      EncodeCountIsLength(codecs[..n], values[..n]);
    }
  }

  /** The first j codecs of a record read within their input when all of them do. */
  lemma PrefixReadsWithin<V>(codecs: seq<FieldCodec<V>>, j: nat)
    requires AllReadWithin(codecs) && j <= |codecs|
    ensures AllReadWithin(codecs[..j])
  {
    forall i | 0 <= i < j ensures ReadsWithin(codecs[..j][i]) {
      assert codecs[..j][i] == codecs[i];
    }
  }

  /** The first j codecs of a record round-trip when all of them do. */
  lemma PrefixRoundTrips<V(!new)>(codecs: seq<FieldCodec<V>>, j: nat)
    requires AllRoundTrip(codecs) && j <= |codecs|
    ensures AllRoundTrip(codecs[..j])
  {
    forall i | 0 <= i < j ensures RoundTrips(codecs[..j][i]) {
      assert codecs[..j][i] == codecs[i];
    }
  }

  /** A decoded prefix followed by a decoded last field is a decoded record. */
  lemma DecodeAfterPrefix<V>(codecs: seq<FieldCodec<V>>, input: seq<u8>, vs: seq<V>, k: nat, v: V, k': nat)
    requires AllReadWithin(codecs) && |codecs| > 0
    requires DecodeFields(codecs[..|codecs| - 1], input) == Decoded(vs, k)
    requires codecs[|codecs| - 1].decode(input[k..]) == Decoded(v, k')
    ensures DecodeFields(codecs, input) == Decoded(vs + [v], k + k')
  {
  }

  /** A decoded prefix followed by a failing next field is a failed record, after the bytes read so far. */
  lemma DecodeFailsAfterPrefix<V>(codecs: seq<FieldCodec<V>>, input: seq<u8>, vs: seq<V>, k: nat, k': nat, e: Error)
    requires AllReadWithin(codecs) && |codecs| > 0
    requires DecodeFields(codecs[..|codecs| - 1], input) == Decoded(vs, k)
    requires codecs[|codecs| - 1].decode(input[k..]) == DecodeFailed(k', e)
    ensures DecodeFields(codecs, input) == DecodeFailed(k + k', e)
  {
  }

  /** A record whose first fields failed to decode fails the same way with one more field. */
  lemma DecodeFailedPrefix<V>(codecs: seq<FieldCodec<V>>, input: seq<u8>)
    requires AllReadWithin(codecs) && |codecs| > 0
    requires DecodeFields(codecs[..|codecs| - 1], input).DecodeFailed?
    ensures DecodeFields(codecs, input) == DecodeFields(codecs[..|codecs| - 1], input)
  {
  }

  /** A record whose first j fields already failed to decode fails the same way. */
  lemma {:induction false} DecodeFailurePersists<V>(codecs: seq<FieldCodec<V>>, input: seq<u8>, j: nat)
    requires AllReadWithin(codecs) && j <= |codecs|
    requires DecodeFields(codecs[..j], input).DecodeFailed?
    ensures DecodeFields(codecs, input) == DecodeFields(codecs[..j], input)
    decreases |codecs|
  {
    var n := |codecs| - 1;
    if j <= n {
      var front := codecs[..n];
      assert front[..j] == codecs[..j];
      DecodeFailurePersists(front, input, j);
      DecodeFailedPrefix(codecs, input);
    } else {
      assert codecs[..j] == codecs;
    }
  }

  /** Once a field fails to decode, the record fails with that error and no later field is read. */
  lemma DecodeStopsAtFailure<V>(codecs: seq<FieldCodec<V>>, input: seq<u8>, j: nat)
    requires AllReadWithin(codecs) && j < |codecs|
    requires DecodeFields(codecs[..j], input).Decoded?
    requires codecs[j].decode(input[DecodeFields(codecs[..j], input).consumed..]).DecodeFailed?
    ensures DecodeFields(codecs, input)
         == DecodeFailed(DecodeFields(codecs[..j], input).consumed
                         + codecs[j].decode(input[DecodeFields(codecs[..j], input).consumed..]).consumed,
                         codecs[j].decode(input[DecodeFields(codecs[..j], input).consumed..]).error)
  {
    var upTo := codecs[..j + 1];
    assert upTo[..j] == codecs[..j] && upTo[j] == codecs[j];
    PrefixReadsWithin(codecs, j + 1);
    var pre := DecodeFields(codecs[..j], input);
    var step := codecs[j].decode(input[pre.consumed..]);
    DecodeFailsAfterPrefix(upTo, input, pre.value, pre.consumed, step.consumed, step.error);
    DecodeFailurePersists(codecs, input, j + 1);
  }

  /** Every codec of a record round-trips. */
  ghost predicate AllRoundTrip<V(!new)>(codecs: seq<FieldCodec<V>>)
  {
    forall i :: 0 <= i < |codecs| ==> RoundTrips(codecs[i])
  }

  /** Reading past the first part of a concatenation leaves the second part. */
  lemma AppendThenDrop(a: seq<u8>, b: seq<u8>, c: seq<u8>)
    ensures a + b + c == a + (b + c)
    ensures (a + (b + c))[|a|..] == b + c
  {
  }

  /** If every field codec round-trips, decoding an encoded record gives the record back. */
  lemma {:induction false} RecordRoundTrip<V(!new)>(codecs: seq<FieldCodec<V>>, values: seq<V>, rest: seq<u8>)
    requires |codecs| == |values| && AllReadWithin(codecs) && AllRoundTrip(codecs)
    requires EncodeFields(codecs, values).Wrote?
    ensures DecodeFields(codecs, EncodeFields(codecs, values).bytes + rest)
         == Decoded(values, |EncodeFields(codecs, values).bytes|)
  {
    if |codecs| > 0 {
      var n := |codecs| - 1;
      var front := codecs[..n];
      EncodeAppendsField(codecs, values);
      var b := EncodeFields(front, values[..n]).bytes;
      var b' := codecs[n].encode(values[n]).bytes;
      var input := b + b' + rest;
      PrefixReadsWithin(codecs, n);
      PrefixRoundTrips(codecs, n);
      RecordRoundTrip(front, values[..n], b' + rest);
      AppendThenDrop(b, b', rest);
      assert RoundTrips(codecs[n]);
      DecodeAfterPrefix(codecs, input, values[..n], |b|, values[n], |b'|);
      assert values[..n] + [values[n]] == values;
    }
  }

  /** A property every decoder promises of field i holds of field i of a decoded record. */
  lemma {:induction false} DecodedFieldsSatisfy<V>(codecs: seq<FieldCodec<V>>, input: seq<u8>, tag: V -> int)
    requires AllReadWithin(codecs)
    requires forall i, inp :: 0 <= i < |codecs| && codecs[i].decode(inp).Decoded? ==> tag(codecs[i].decode(inp).value) == i
    ensures DecodeFields(codecs, input).Decoded? ==>
              forall i :: 0 <= i < |codecs| ==> tag(DecodeFields(codecs, input).value[i]) == i
  {
    if |codecs| > 0 {
      var n := |codecs| - 1;
      DecodedFieldsSatisfy(codecs[..n], input, tag);
    }
  }

  /** The byte sink a record is encoded into (`S: io::Write`); it only ever grows. */
  class Sink {
    var written: seq<u8>

    constructor ()
      ensures written == []
    {
      written := [];
    }
  }

  /** The byte source a record is decoded from (`D: io::Read`): its bytes and the read position. */
  class Source {
    const data: seq<u8>
    var pos: nat

    ghost predicate Valid()
      reads this
    {
      pos <= |data|
    }

    /** The bytes not yet read. */
    function Remaining(): seq<u8>
      reads this
      requires Valid()
    {
      data[pos..]
    }

    constructor (bytes: seq<u8>)
      ensures Valid() && data == bytes && pos == 0
    {
      data := bytes;
      pos := 0;
    }
  }

  /** The generated `consensus_encode`: `len += field.consensus_encode(&mut s)?` for each field. */
  method ConsensusEncode<V>(codecs: seq<FieldCodec<V>>, values: seq<V>, s: Sink) returns (r: Result<nat, Error>)
    requires 0 < |codecs| == |values|
    modifies s
    ensures EncodeFields(codecs, values).Wrote? ==>
              r == Ok(EncodeFields(codecs, values).count) && s.written == old(s.written) + EncodeFields(codecs, values).bytes
    ensures EncodeFields(codecs, values).WriteFailed? ==>
              r == Err(EncodeFields(codecs, values).error) && s.written == old(s.written) + EncodeFields(codecs, values).partial
  {
    ghost var wrote: seq<u8> := [];
    var len := 0;
    for i := 0 to |codecs|
      invariant EncodeFields(codecs[..i], values[..i]) == Wrote(wrote, len)
      invariant s.written == old(s.written) + wrote
    {
      assert codecs[..i + 1][..i] == codecs[..i] && values[..i + 1][..i] == values[..i];
      match codecs[i].encode(values[i])
      case WriteFailed(p, e) =>
        s.written := s.written + p;
        EncodeStopsAtFailure(codecs, values, i);
        return Err(e);
      case Wrote(b, n) =>
        s.written := s.written + b;
        wrote := wrote + b;
        len := len + n;
    }
    assert codecs[..|codecs|] == codecs && values[..|codecs|] == values;
    return Ok(len);
  }

  /** What a decode returns to its caller: the value, or the error. */
  function Outcome<T>(step: DecodeStep<T>): (r: Result<T, Error>)
    ensures r.Ok? <==> step.Decoded?
  {
    match step
    case Decoded(v, _) => Ok(v)
    case DecodeFailed(_, e) => Err(e)
  }

  /** One field's `consensus_decode(&mut d)`: decode from the unread bytes and advance past what was read. */
  method DecodeField<V>(c: FieldCodec<V>, d: Source) returns (step: DecodeStep<V>)
    requires d.Valid() && ReadsWithin(c)
    modifies d
    ensures d.Valid()
    ensures step == c.decode(old(d.Remaining()))
    ensures d.pos == old(d.pos) + step.consumed
  {
    step := c.decode(d.data[d.pos..]);
    d.pos := d.pos + step.consumed;
  }

  /** The generated `consensus_decode`: `field: Decodable::consensus_decode(&mut d)?` for each field. */
  method ConsensusDecode<V>(codecs: seq<FieldCodec<V>>, d: Source) returns (r: Result<seq<V>, Error>)
    requires d.Valid() && AllReadWithin(codecs) && |codecs| > 0
    modifies d
    ensures d.Valid()
    ensures r == Outcome(DecodeFields(codecs, old(d.Remaining())))
    ensures d.pos == old(d.pos) + DecodeFields(codecs, old(d.Remaining())).consumed
  {
    ghost var input := d.Remaining();
    ghost var start := d.pos;
    var fields: seq<V> := [];
    for i := 0 to |codecs|
      invariant d.Valid() && start <= d.pos
      invariant AllReadWithin(codecs[..i])
      invariant DecodeFields(codecs[..i], input) == Decoded(fields, d.pos - start)
    {
      var front := codecs[..i + 1];
      assert front[..i] == codecs[..i];
      PrefixReadsWithin(codecs, i + 1);
      ghost var done := d.pos - start;
      assert d.Remaining() == input[done..];
      var step := DecodeField(codecs[i], d);
      match step
      case DecodeFailed(k, e) =>
        DecodeFailsAfterPrefix(front, input, fields, done, k, e);
        DecodeFailurePersists(codecs, input, i + 1);
        return Err(e);
      case Decoded(v, k) =>
        DecodeAfterPrefix(front, input, fields, done, v, k);
        fields := fields + [v];
    }
    assert codecs[..|codecs|] == codecs;
    return Ok(fields);
  }
}

/**
 * `user_enum!` (src/internal_macros.rs): an enum declared with `Variant <-> "text"` lines gets
 * Display and Debug printing each variant's text and FromStr mapping a text back to its variant.
 */
module UserEnum {
  import opened Wrappers
  import opened Errors

  /** The `Variant <-> "text"` lines of one invocation, in declaration order. */
  type Table<E> = seq<(E, string)>

  function Variants<E>(table: Table<E>): set<E>
  {
    if |table| == 0 then {} else {table[0].0} + Variants(table[1..])
  }

  function Texts<E>(table: Table<E>): set<string>
  {
    if |table| == 0 then {} else {table[0].1} + Texts(table[1..])
  }

  /** No two lines carry the same text. */
  predicate DistinctTexts<E>(table: Table<E>)
  {
    forall i, j :: 0 <= i < j < |table| ==> table[i].1 != table[j].1
  }

  /** No variant is declared on two lines. */
  predicate DistinctVariants<E(==)>(table: Table<E>)
  {
    forall i, j :: 0 <= i < j < |table| ==> table[i].0 != table[j].0
  }

  /** Display and Debug: the text on the variant's line. */
  function ToText<E(==)>(table: Table<E>, v: E): (t: string)
    requires v in Variants(table)
    ensures (v, t) in table
    ensures t in Texts(table)
  {
    if table[0].0 == v then table[0].1 else ToText(table[1..], v)
  }

  /** The variant of the first line whose text is exactly `s`. */
  function Lookup<E>(table: Table<E>, s: string): (r: Option<E>)
    ensures r.Some? <==> s in Texts(table)
    ensures r.Some? ==> (r.value, s) in table
  {
    if |table| == 0 then None
    else if table[0].1 == s then Some(table[0].0)
    else Lookup(table[1..], s)
  }

  /** The error FromStr reports for a text that is on no line. */
  function UnknownText(s: string): (e: IoError)
    ensures e.kind == InvalidInput && |e.message| == |s| + 23
    ensures e.message[..22] == "Unknown network (type " && e.message[22..|e.message| - 1] == s
    ensures e.message[|e.message| - 1] == ')'
  {
    IoError(InvalidInput, "Unknown network (type " + s + ")")
  }

  /** FromStr: the variant whose text is `s`, or an `InvalidInput` error naming `s`. */
  function FromStr<E>(table: Table<E>, s: string): (r: Result<E, IoError>)
    ensures r.Ok? <==> s in Texts(table)
    ensures r.Err? ==> r.error == UnknownText(s)
  {
    match Lookup(table, s)
    case Some(v) => Ok(v)
    case None => Err(UnknownText(s))
  }

  /** FromStr inverts Display when the texts are distinct. */
  lemma {:induction false} FromStrOfText<E>(table: Table<E>, v: E)
    requires DistinctTexts(table) && v in Variants(table)
    ensures FromStr(table, ToText(table, v)) == Ok(v)
  {
    if table[0].0 != v {
      FromStrOfText(table[1..], v);
      var t := ToText(table[1..], v);
      TextInTail(table, t);
    }
  }

  /** With distinct texts, a text from the tail is not the head's. */
  lemma TextInTail<E>(table: Table<E>, t: string)
    requires |table| > 0 && DistinctTexts(table) && t in Texts(table[1..])
    ensures table[0].1 != t
  {
    var k := TextIndex(table[1..], t);
    assert table[1..][k] == table[k + 1];
  }

  lemma {:induction false} TextIndex<E>(table: Table<E>, t: string) returns (k: nat)
    requires t in Texts(table)
    ensures k < |table| && table[k].1 == t
  {
    if table[0].1 != t {
      k := TextIndex(table[1..], t);
      k := k + 1;
    } else {
      k := 0;
    }
  }

  /** Display inverts FromStr when each variant has one line. */
  lemma {:induction false} TextOfFromStr<E>(table: Table<E>, s: string)
    requires DistinctVariants(table) && FromStr(table, s).Ok?
    ensures FromStr(table, s).value in Variants(table)
    ensures ToText(table, FromStr(table, s).value) == s
  {
    var v := FromStr(table, s).value;
    if table[0].1 != s {
      TextOfFromStr(table[1..], s);
      VariantInTail(table, v);
    }
  }

  /** With distinct variants, a variant from the tail is not the head's. */
  lemma VariantInTail<E>(table: Table<E>, v: E)
    requires |table| > 0 && DistinctVariants(table) && v in Variants(table[1..])
    ensures table[0].0 != v
  {
    var k := VariantIndex(table[1..], v);
    assert table[1..][k] == table[k + 1];
  }

  lemma {:induction false} VariantIndex<E>(table: Table<E>, v: E) returns (k: nat)
    requires v in Variants(table)
    ensures k < |table| && table[k].0 == v
  {
    if table[0].0 != v {
      k := VariantIndex(table[1..], v);
      k := k + 1;
    } else {
      k := 0;
    }
  }
}

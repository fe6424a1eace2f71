/**
 pkg/store/crud.go: vectors as bytes. A vector is stored as its length and its components, each in four bytes, lowest
 byte first. A component stands for the bit pattern of a 32-bit float.
 */
module VectorCodec {
  import opened MachineInts

  type Vector = seq<uint32>
  type Bytes = seq<uint8>

  /** Four digits in base 256, lowest first. */
  function ToBytes(w: uint32): (b: Bytes)
    ensures |b| == 4
  {
    var n := w as nat;
    [Low(n), Low(n / 256), Low(n / 256 / 256), Low(n / 256 / 256 / 256)]
  }

  function Low(n: nat): uint8 {
    (n % 256) as uint8
  }

  function Digits(a: nat, b: nat, c: nat, d: nat): nat {
    a + 256 * (b + 256 * (c + 256 * d))
  }

  function FromBytes(b: Bytes): uint32
    requires |b| == 4
  {
    Digits(b[0] as nat, b[1] as nat, b[2] as nat, b[3] as nat) as uint32
  }

  lemma LowestDigit(n: nat, digit: nat, upper: nat)
    requires digit < 256
    ensures n == digit + 256 * upper <==> digit == n % 256 && upper == n / 256
  {
  }

  lemma WordRoundTrip(w: uint32)
    ensures FromBytes(ToBytes(w)) == w
  {
    var n0 := w as nat;
    var n1 := n0 / 256;
    var n2 := n1 / 256;
    var n3 := n2 / 256;
    LowestDigit(n0, n0 % 256, n1);
    LowestDigit(n1, n1 % 256, n2);
    LowestDigit(n2, n2 % 256, n3);
  }

  lemma BytesRoundTrip(b: Bytes)
    requires |b| == 4
    ensures ToBytes(FromBytes(b)) == b
  {
    var n2 := b[2] as nat + 256 * b[3] as nat;
    var n1 := b[1] as nat + 256 * n2;
    LowestDigit(b[0] as nat + 256 * n1, b[0] as nat, n1);
    LowestDigit(n1, b[1] as nat, n2);
    LowestDigit(n2, b[2] as nat, b[3] as nat);
  }

  /** The components of v in order. */
  ghost function Components(v: Vector): (b: Bytes)
    ensures |b| == 4 * |v|
  {
    if v == [] then [] else Components(v[..|v| - 1]) + ToBytes(v[|v| - 1])
  }

  /** The length takes 32 bits, so a longer vector is stored with its length modulo 2^32. */
  ghost function Encode(v: Vector): Bytes {
    ToBytes((|v| % TWO_TO_THE_32) as uint32) + Components(v)
  }

  datatype Decoded = Nil | Vec(v: Vector) | Crash

  ghost function Length(data: Bytes): nat
    requires |data| >= 4
  {
    FromBytes(data[..4]) as nat
  }

  ghost function Words(b: Bytes, n: nat): (v: Vector)
    requires |b| >= 4 * n
    ensures |v| == n && forall i :: 0 <= i < n ==> v[i] == FromBytes(b[4 * i..4 * i + 4])
  {
    if n == 0 then [] else Words(b, n - 1) + [FromBytes(b[4 * (n - 1)..4 * n])]
  }

  /** Less than four bytes is no vector; data that ends before its last component makes the reader fail. */
  ghost function Decode(data: Bytes): Decoded {
    if |data| < 4 then Nil
    else if |data| < 4 + 4 * Length(data) then Crash
    else Vec(Words(data[4..], Length(data)))
  }

  method PutUint32(buf: array<uint8>, at: nat, w: uint32)
    requires at + 4 <= buf.Length
    modifies buf
    ensures buf[..] == old(buf[..at]) + ToBytes(w) + old(buf[at + 4..])
  {
    var n := w as nat;
    buf[at], buf[at + 1], buf[at + 2], buf[at + 3] :=
      Low(n), Low(n / 256), Low(n / 256 / 256), Low(n / 256 / 256 / 256);
  }

  method VectorToBytes(v: Vector) returns (buf: array<uint8>)
    ensures fresh(buf) && buf[..] == Encode(v)
  {
    buf := new uint8[4 + |v| * 4];
    PutUint32(buf, 0, (|v| % TWO_TO_THE_32) as uint32);
    for i := 0 to |v|
      invariant buf[..4 + 4 * i] == ToBytes((|v| % TWO_TO_THE_32) as uint32) + Components(v[..i])
    {
      ghost var before := buf[..];
      PutUint32(buf, 4 + i * 4, v[i]);
      assert buf[..4 + 4 * (i + 1)] == before[..4 + 4 * i] + ToBytes(v[i]);
      assert v[..i + 1][..i] == v[..i];
    }
    assert v[..|v|] == v;
  }

  method BytesToVector(data: Bytes) returns (r: Decoded)
    ensures r == Decode(data)
  {
    if |data| < 4 {
      return Nil;
    }
    var n := FromBytes(data[..4]) as nat;
    var vec: Vector := [];
    for i := 0 to n
      invariant |data| >= 4 + 4 * i && vec == Words(data[4..], i)
    {
      if |data| < 8 + 4 * i {
        return Crash;
      }
      assert data[4..][4 * i..4 * (i + 1)] == data[4 + i * 4..8 + i * 4];
      vec := vec + [FromBytes(data[4 + i * 4..8 + i * 4])];
    }
    r := Vec(vec);
  }

  lemma {:induction false} ComponentAt(v: Vector, i: nat)
    requires i < |v|
    ensures Components(v)[4 * i..4 * i + 4] == ToBytes(v[i])
  {
    var front := v[..|v| - 1];
    if i < |v| - 1 {
      ComponentAt(front, i);
      assert Components(v)[4 * i..4 * i + 4] == Components(front)[4 * i..4 * i + 4];
    } else {
      assert Components(v)[4 * i..4 * i + 4] == ToBytes(v[i]);
    }
  }

  /** Main result: reading back a stored vector gives it up to its stored length. */
  lemma DecodeOfEncode(v: Vector)
    ensures Decode(Encode(v)) == Vec(v[..|v| % TWO_TO_THE_32])
  {
    var n := |v| % TWO_TO_THE_32;
    var data := Encode(v);
    assert data[..4] == ToBytes(n as uint32) && data[4..] == Components(v);
    WordRoundTrip(n as uint32);
    assert n <= |v|;
    forall i | 0 <= i < n
      ensures Words(data[4..], n)[i] == v[i]
    {
      ComponentAt(v, i);
      WordRoundTrip(v[i]);
    }
    assert Words(data[4..], n) == v[..n];
  }

  /** Main result: a vector survives storage exactly when its length fits into 32 bits. */
  lemma RoundTripExactly(v: Vector)
    ensures Decode(Encode(v)) == Vec(v) <==> |v| < TWO_TO_THE_32
  {
    DecodeOfEncode(v);
    StoredLength(|v|);
  }

  lemma StoredLength(n: nat)
    ensures n % TWO_TO_THE_32 <= n && (n % TWO_TO_THE_32 == n <==> n < TWO_TO_THE_32)
  {
  }

  lemma {:induction false} ComponentsOfWords(b: Bytes, n: nat)
    requires |b| >= 4 * n
    ensures Components(Words(b, n)) == b[..4 * n]
  {
    if n > 0 {
      var v, last := Words(b, n), b[4 * (n - 1)..4 * (n - 1) + 4];
      ComponentsOfWords(b, n - 1);
      assert v[..n - 1] == Words(b, n - 1) && v[n - 1] == FromBytes(last);
      BytesRoundTrip(last);
      OneMoreWord(b, 4 * (n - 1));
    }
  }

  lemma OneMoreWord(b: Bytes, k: nat)
    requires k + 4 <= |b|
    ensures b[..k + 4] == b[..k] + b[k..k + 4]
  {
  }

  /** The bytes of a word are its digits in base 256, lowest first. */
  lemma LowestByteFirst(w: uint32)
    ensures
      var b := ToBytes(w);
      w as nat == b[0] as nat + 256 * b[1] as nat + 65536 * b[2] as nat + 16777216 * b[3] as nat
  {
    var n0 := w as nat;
    var n1 := n0 / 256;
    var n2 := n1 / 256;
    var n3 := n2 / 256;
    LowestDigit(n0, n0 % 256, n1);
    LowestDigit(n1, n1 % 256, n2);
    LowestDigit(n2, n2 % 256, n3);
  }

  /** Main result: the first four bytes hold the length and each four that follow the next component, all of them lowest
      byte first. */
  lemma LayoutExactly(v: Vector, i: nat)
    requires i <= |v|
    ensures |Encode(v)| == 4 + 4 * |v|
    ensures
      var b := Encode(v)[4 * i..4 * i + 4];
      var n := if i == 0 then |v| % 0x1_0000_0000 else v[i - 1] as nat;
      n == b[0] as nat + 256 * b[1] as nat + 65536 * b[2] as nat + 16777216 * b[3] as nat
  {
    hide ToBytes;
    var word := if i == 0 then (|v| % TWO_TO_THE_32) as uint32 else v[i - 1];
    LowestByteFirst(word);
    if i > 0 {
      ComponentAt(v, i - 1);
      assert Encode(v)[4 * i..4 * i + 4] == Components(v)[4 * (i - 1)..4 * (i - 1) + 4];
    }
  }

  /** Storing what was read gives the bytes back, without what follows the last component. */
  lemma EncodeOfDecode(data: Bytes)
    requires Decode(data).Vec?
    ensures Encode(Decode(data).v) == data[..4 + 4 * Length(data)]
  {
    hide Words, Components, FromBytes, ToBytes;
    var n, body, header := Length(data), data[4..], data[..4];
    ComponentsOfWords(body, n);
    HeaderOf(header);
    var v := Words(body, n);
    assert Encode(v) == header + body[..4 * n];
    assert data[..4] + body[..4 * n] == data[..4 + 4 * n];
  }

  lemma HeaderOf(b: Bytes)
    requires |b| == 4
    ensures ToBytes((FromBytes(b) as nat % TWO_TO_THE_32) as uint32) == b
  {
    BytesRoundTrip(b);
    WordFits(FromBytes(b));
  }

  lemma WordFits(w: uint32)
    ensures (w as nat % TWO_TO_THE_32) as uint32 == w
  {
  }
}

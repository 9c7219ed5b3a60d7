/** The hand-written DER reader of the admin UI (admin-ui/src/utils/x509.ts), and what the encoding
    it reads is (ITU-T X.690 section 8.1.3). */
module Der {
  import opened Wrappers

  type byte = x: int | 0 <= x < 256
  type Bytes = seq<byte>

  /** A tag-length-value: `start` and `end` bound its content. */
  datatype Tlv = Tlv(tag: byte, start: nat, end: nat)

  datatype CertificateError = Truncated | Unsupported | NotACertificate | NoValidityPeriod | InvalidDate

  // ---- Reading ----

  /** The big-endian number in `count` octets from `from`; an octet past the end counts as 0. */
  function BigEndian(bytes: Bytes, from: nat, count: nat): nat {
    if count == 0 then 0
    else
      var i := from + count - 1;
      BigEndian(bytes, from, count - 1) * 256 + (if i < |bytes| then bytes[i] else 0)
  }

  function TlvAt(bytes: Bytes, offset: nat): (r: Result<Tlv, CertificateError>)
    ensures r.Success? ==> && offset + 2 <= r.value.start <= r.value.end <= |bytes|
                           && r.value.tag == bytes[offset]
  {
    if offset + 1 >= |bytes| then Failure(Truncated)
    else
      var count: int := bytes[offset + 1] as int - 128;
      if count < 0 then Bounded(bytes, bytes[offset], offset + 2, bytes[offset + 1])
      else if count == 0 || count > 4 then Failure(Unsupported)
      else Bounded(bytes, bytes[offset], offset + 2 + count, BigEndian(bytes, offset + 2, count))
  }

  function Bounded(bytes: Bytes, tag: byte, start: nat, length: nat): Result<Tlv, CertificateError> {
    if start + length > |bytes| then Failure(Truncated) else Success(Tlv(tag, start, start + length))
  }

  method ReadTlv(bytes: Bytes, offset: nat) returns (r: Result<Tlv, CertificateError>)
    ensures r == TlvAt(bytes, offset)
  {
    if offset + 1 >= |bytes| {
      return Failure(Truncated);
    }
    var tag, start := bytes[offset], offset + 2;
    var length: nat := bytes[offset + 1];
    if length >= 0x80 {
      var count := length - 0x80;
      if count == 0 || count > 4 {
        return Failure(Unsupported);
      }
      length := 0;
      for i := 0 to count
        invariant length == BigEndian(bytes, start, i)
      {
        length := length * 256 + (if start + i < |bytes| then bytes[start + i] else 0);
      }
      start := start + count;
    }
    var end := start + length;
    if end > |bytes| {
      return Failure(Truncated);
    }
    return Success(Tlv(tag, start, end));
  }

  /** The items from `offset` until one ends at or after `end`. */
  function Items(bytes: Bytes, offset: nat, end: nat): Result<seq<Tlv>, CertificateError>
    decreases |bytes| - offset
  {
    if offset >= end then Success([])
    else
      match TlvAt(bytes, offset)
      case Failure(e) => Failure(e)
      case Success(item) =>
        match Items(bytes, item.end, end)
        case Failure(e) => Failure(e)
        case Success(rest) => Success([item] + rest)
  }

  function Children(bytes: Bytes, parent: Tlv): Result<seq<Tlv>, CertificateError> {
    Items(bytes, parent.start, parent.end)
  }

  method ReadChildren(bytes: Bytes, parent: Tlv) returns (r: Result<seq<Tlv>, CertificateError>)
    ensures r == Children(bytes, parent)
  {
    var result: seq<Tlv> := [];
    var offset := parent.start;
    assert forall rest: seq<Tlv> :: [] + rest == rest;
    while offset < parent.end
      invariant Children(bytes, parent)
                == match Items(bytes, offset, parent.end)
                   case Failure(e) => Failure(e)
                   case Success(rest) => Success(result + rest)
      decreases |bytes| - offset
    {
      var child := ReadTlv(bytes, offset);
      if child.Failure? {
        return Failure(child.error);
      }
      assert forall rest :: result + ([child.value] + rest) == (result + [child.value]) + rest;
      result := result + [child.value];
      offset := child.value.end;
    }
    assert result + [] == result;
    return Success(result);
  }

  // ---- Soundness on every byte string ----

  /** Up to four octets as a number, the first one the most significant. */
  lemma BigEndianIs(bytes: Bytes, from: nat)
    ensures from + 1 <= |bytes| ==> BigEndian(bytes, from, 1) == bytes[from]
    ensures from + 2 <= |bytes| ==> BigEndian(bytes, from, 2) == bytes[from] as int * 0x100 + bytes[from + 1]
    ensures from + 3 <= |bytes| ==>
              BigEndian(bytes, from, 3) == bytes[from] as int * 0x1_0000 + bytes[from + 1] as int * 0x100
                                           + bytes[from + 2]
    ensures from + 4 <= |bytes| ==>
              BigEndian(bytes, from, 4) == bytes[from] as int * 0x100_0000 + bytes[from + 1] as int * 0x1_0000
                                           + bytes[from + 2] as int * 0x100 + bytes[from + 3]
  {
    assert BigEndian(bytes, from, 0) == 0;
  }

  /** A truncated item is refused, whichever part is missing: header, length octets or content. And
      an item that is all there, with at most four length octets, is read; its content begins after
      the length octets and is as long as they say. */
  lemma ReadExactlyWhenComplete(bytes: Bytes, offset: nat)
    ensures TlvAt(bytes, offset).Success?
            <==> && offset + 2 <= |bytes|
                 && (|| (bytes[offset + 1] < 128 && offset + 2 + bytes[offset + 1] <= |bytes|)
                     || (&& 129 <= bytes[offset + 1] <= 132
                         && offset + 2 + (bytes[offset + 1] - 128) <= |bytes|
                         && offset + 2 + (bytes[offset + 1] - 128)
                            + BigEndian(bytes, offset + 2, bytes[offset + 1] - 128) <= |bytes|))
    ensures TlvAt(bytes, offset).Success? ==>
              var (first, item) := (bytes[offset + 1], TlvAt(bytes, offset).value);
              && item.tag == bytes[offset]
              && (first < 128 ==> item.start == offset + 2 && item.end == item.start + first)
              && (first > 128 ==> && item.start == offset + 2 + (first - 128)
                                  && item.end == item.start + BigEndian(bytes, offset + 2, first - 128))
    ensures TlvAt(bytes, offset) == Failure(Unsupported)
            <==> offset + 2 <= |bytes| && (bytes[offset + 1] == 128 || bytes[offset + 1] > 132)
    ensures TlvAt(bytes, offset).Failure? ==> TlvAt(bytes, offset).error in {Unsupported, Truncated}
  {
  }

  /** Where the header of the i-th item starts. */
  function HeaderOf(items: seq<Tlv>, i: nat, from: nat): nat
    requires i <= |items|
  {
    if i == 0 then from else items[i - 1].end
  }

  /** `items` lie end to end from `from`, each starts before `to`, and together they reach it. */
  ghost predicate Tile(bytes: Bytes, items: seq<Tlv>, from: nat, to: nat) {
    && (forall i | 0 <= i < |items| ::
          && TlvAt(bytes, HeaderOf(items, i, from)) == Success(items[i])
          && HeaderOf(items, i, from) < to)
    && HeaderOf(items, |items|, from) >= to
  }

  /** The children of an item are exactly the items that tile its content, when there are such. */
  lemma ChildrenTile(bytes: Bytes, parent: Tlv, items: seq<Tlv>)
    ensures Children(bytes, parent) == Success(items) <==> Tile(bytes, items, parent.start, parent.end)
  {
    ItemsTile(bytes, parent.start, parent.end, items);
  }

  lemma {:induction false} ItemsTile(bytes: Bytes, from: nat, to: nat, items: seq<Tlv>)
    ensures Items(bytes, from, to) == Success(items) <==> Tile(bytes, items, from, to)
    decreases |bytes| - from
  {
    assert HeaderOf(items, 0, from) == from;
    if from < to && items != [] && TlvAt(bytes, from) == Success(items[0]) {
      ItemsTile(bytes, items[0].end, to, items[1..]);
      TileFirst(bytes, items, from, to);
      assert items == [items[0]] + items[1..];
    }
  }

  /** A tiling is a first item and a tiling from its end. */
  lemma TileFirst(bytes: Bytes, items: seq<Tlv>, from: nat, to: nat)
    requires from < to && items != [] && TlvAt(bytes, from) == Success(items[0])
    ensures Tile(bytes, items, from, to) <==> Tile(bytes, items[1..], items[0].end, to)
  {
    var rest := items[1..];
    forall i | 0 <= i <= |rest| ensures HeaderOf(rest, i, items[0].end) == HeaderOf(items, i + 1, from) {
    }
    if Tile(bytes, rest, items[0].end, to) {
      forall i | 0 <= i < |items|
        ensures TlvAt(bytes, HeaderOf(items, i, from)) == Success(items[i]) && HeaderOf(items, i, from) < to
      {
        assert i > 0 ==> rest[i - 1] == items[i] && HeaderOf(rest, i - 1, items[0].end) == HeaderOf(items, i, from);
      }
    }
    if Tile(bytes, items, from, to) {
      forall i | 0 <= i < |rest|
        ensures TlvAt(bytes, HeaderOf(rest, i, items[0].end)) == Success(rest[i])
        ensures HeaderOf(rest, i, items[0].end) < to
      {
        assert rest[i] == items[i + 1] && HeaderOf(items, i + 1, from) < to;
      }
    }
  }

  // ---- Writing ----

  /** A DER value: bytes, or a sequence of values. */
  datatype Value = Primitive(tag: byte, content: Bytes) | Constructed(tag: byte, parts: seq<Value>)

  /** The fewest octets that hold a number. */
  function Octets(n: nat): (o: Bytes)
    ensures |o| >= 1
  {
    if n < 256 then [n] else Octets(n / 256) + [n % 256]
  }

  /** Definite form: one octet below 128, else the count of length octets and the octets. (No
      length has more than 126 octets, so the last case never arises.) */
  function EncodeLength(n: nat): Bytes {
    var o := Octets(n);
    if n < 128 then [n] else if |o| <= 126 then [128 + |o|] + o else []
  }

  lemma OctetsFit(n: nat)
    requires n < 0x1_0000_0000
    ensures |Octets(n)| <= 4
  {
    OctetsGrow(n, 0x100_0000, 3);
  }

  lemma {:induction false} OctetsGrow(n: nat, bound: nat, k: nat)
    requires n < bound * 256
    requires (k == 3 && bound == 0x100_0000) || (k == 2 && bound == 0x1_0000) || (k == 1 && bound == 0x100)
    ensures |Octets(n)| <= k + 1
  {
    if n >= 256 && k > 1 {
      OctetsGrow(n / 256, bound / 256, k - 1);
    }
  }

  /** Header and content. */
  ghost function Encode(v: Value): Bytes
    decreases v, 1
  {
    [v.tag] + EncodeLength(|Content(v)|) + Content(v)
  }

  ghost function Content(v: Value): Bytes
    decreases v, 0
  {
    match v
    case Primitive(_, content) => content
    case Constructed(_, parts) => EncodeAll(parts)
  }

  ghost function EncodeAll(vs: seq<Value>): Bytes {
    if vs == [] then [] else Encode(vs[0]) + EncodeAll(vs[1..])
  }

  // ---- Reading what was written ----

  /** The item is where this value's content stands in `bytes`. */
  ghost predicate Locates(bytes: Bytes, item: Tlv, v: Value) {
    && item.tag == v.tag
    && item.start <= item.end <= |bytes|
    && bytes[item.start..item.end] == Content(v)
  }

  lemma {:induction false} BigEndianReadsOctets(bytes: Bytes, from: nat, n: nat)
    requires from + |Octets(n)| <= |bytes| && bytes[from..from + |Octets(n)|] == Octets(n)
    ensures BigEndian(bytes, from, |Octets(n)|) == n
  {
    var o := Octets(n);
    if n < 256 {
      assert bytes[from..from + 1][0] == bytes[from] == n;
      assert BigEndian(bytes, from, 0) == 0;
    } else {
      var p := Octets(n / 256);
      SubSlice(bytes, from, o, 0, |p|);
      assert o[0..|p|] == p;
      BigEndianReadsOctets(bytes, from, n / 256);
      assert bytes[from + |o| - 1] == bytes[from..from + |o|][|o| - 1] == n % 256;
    }
  }

  lemma SubSlice(bytes: Bytes, offset: nat, whole: Bytes, a: nat, b: nat)
    requires offset + |whole| <= |bytes| && bytes[offset..offset + |whole|] == whole
    requires a <= b <= |whole|
    ensures bytes[offset + a..offset + b] == whole[a..b]
    ensures a < b ==> bytes[offset + a] == whole[a]
  {
    forall k | 0 <= k < b - a ensures bytes[offset + a..offset + b][k] == whole[a..b][k] {
      assert bytes[offset..offset + |whole|][a + k] == whole[a + k];
    }
    if a < b {
      assert bytes[offset + a] == bytes[offset + a..offset + b][0];
    }
  }

  /** An encoded value, wherever it stands, is read back as its tag and content. */
  lemma ReadsEncoded(bytes: Bytes, offset: nat, v: Value)
    requires |bytes| < 0x1_0000_0000
    requires offset + |Encode(v)| <= |bytes| && bytes[offset..offset + |Encode(v)|] == Encode(v)
    ensures TlvAt(bytes, offset).Success?
    ensures var item := TlvAt(bytes, offset).value;
            Locates(bytes, item, v) && item.end == offset + |Encode(v)|
  {
    var header := EncodeLength(|Content(v)|);
    Pieces(bytes, offset, v.tag, header, Content(v));
    ReadsLength(bytes, offset, |Content(v)|);
  }

  /** Length octets read as the length they were written for. */
  lemma ReadsLength(bytes: Bytes, offset: nat, n: nat)
    requires n < 0x1_0000_0000
    requires var at := offset + 1 + |EncodeLength(n)|;
             at <= |bytes| && bytes[offset + 1..at] == EncodeLength(n)
    ensures TlvAt(bytes, offset) == Bounded(bytes, bytes[offset], offset + 1 + |EncodeLength(n)|, n)
  {
    var header := EncodeLength(n);
    OctetsFit(n);
    SubSlice(bytes, offset + 1, header, 0, 1);
    if n >= 128 {
      SubSlice(bytes, offset + 1, header, 1, |header|);
      assert header[1..|header|] == Octets(n);
      BigEndianReadsOctets(bytes, offset + 2, n);
    }
  }

  lemma Pieces(bytes: Bytes, offset: nat, tag: byte, header: Bytes, content: Bytes)
    requires var at := offset + 1 + |header|;
             at + |content| <= |bytes| && bytes[offset..at + |content|] == [tag] + header + content
    ensures var at := offset + 1 + |header|;
            && bytes[offset] == tag
            && bytes[offset + 1..at] == header
            && bytes[at..at + |content|] == content
  {
    var whole, at := [tag] + header + content, 1 + |header|;
    assert whole[0] == tag && whole[1..at] == header && whole[at..|whole|] == content;
    SubSlice(bytes, offset, whole, 0, 1);
    SubSlice(bytes, offset, whole, 1, at);
    SubSlice(bytes, offset, whole, at, |whole|);
  }

  /** The children read from a sequence's content are exactly the values it was written from, in
      order: `Children` inverts `EncodeAll`. */
  lemma ChildrenInvertEncoding(bytes: Bytes, parent: Tlv, tag: byte, parts: seq<Value>)
    returns (items: seq<Tlv>)
    requires |bytes| < 0x1_0000_0000
    requires Locates(bytes, parent, Constructed(tag, parts))
    ensures Children(bytes, parent) == Success(items)
    ensures |items| == |parts| && forall i | 0 <= i < |parts| :: Locates(bytes, items[i], parts[i])
  {
    items := ItemsInvertEncoding(bytes, parent.start, parent.end, parts);
  }

  lemma {:induction false} ItemsInvertEncoding(bytes: Bytes, from: nat, to: nat, parts: seq<Value>)
    returns (items: seq<Tlv>)
    requires |bytes| < 0x1_0000_0000
    requires from <= to <= |bytes| && bytes[from..to] == EncodeAll(parts)
    ensures Items(bytes, from, to) == Success(items)
    ensures |items| == |parts| && forall i | 0 <= i < |parts| :: Locates(bytes, items[i], parts[i])
    decreases |parts|
  {
    if parts == [] {
      items := [];
    } else {
      var item := FirstInvertsEncoding(bytes, from, to, parts);
      var rest := ItemsInvertEncoding(bytes, item.end, to, parts[1..]);
      items := [item] + rest;
    }
  }

  lemma FirstInvertsEncoding(bytes: Bytes, from: nat, to: nat, parts: seq<Value>) returns (item: Tlv)
    requires |bytes| < 0x1_0000_0000 && parts != []
    requires from <= to <= |bytes| && bytes[from..to] == EncodeAll(parts)
    ensures TlvAt(bytes, from) == Success(item) && Locates(bytes, item, parts[0])
    ensures from < item.end <= to && bytes[item.end..to] == EncodeAll(parts[1..])
  {
    var first, all := Encode(parts[0]), EncodeAll(parts);
    assert all[..|first|] == first && all[|first|..] == EncodeAll(parts[1..]);
    assert from + |all| == to;
    SubSlice(bytes, from, all, 0, |first|);
    SubSlice(bytes, from, all, |first|, |all|);
    assert from + 0 == from;
    ReadsEncoded(bytes, from, parts[0]);
    item := TlvAt(bytes, from).value;
  }
}

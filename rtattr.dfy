/**
 * The rtnetlink attribute (struct rtattr) wire format of <linux/rtnetlink.h>.
 *
 * An attribute is a 4-byte header -- a 16-bit length that counts the header
 * itself, then a 16-bit type -- followed by its payload, padded with zero
 * bytes to a multiple of 4 (RTA_ALIGN).  A nested attribute's payload is the
 * concatenation of its children's padded encodings.  Both header fields are
 * in host byte order; the model assumes a little-endian host.
 *
 * `Encode` gives the bytes a tree of attributes occupies; `WalkFrom` is the
 * RTA_OK / RTA_NEXT iteration over a region, and `Lookup` the first-match
 * index that parse_rtattr_flags builds from that iteration.
 */
module Rtattr {

  type Byte = x: int | 0 <= x < 0x100
  type U16 = x: int | 0 <= x < 0x1_0000
  type U32 = x: int | 0 <= x < 0x1_0000_0000

  datatype Option<T> = None | Some(value: T)

  /** Size of struct rtattr, the attribute header (RTA_LENGTH(0)). */
  const RTA_HDRLEN: nat := 4

  /** NLA_F_NESTED, the type flag marking a nested attribute. */
  const NLA_F_NESTED: U16 := 0x8000

  /** RTA_ALIGN: round up to the next multiple of 4. */
  function Align4(n: nat): (r: nat)
    ensures r % 4 == 0 && n <= r < n + 4
  {
    (n + 3) / 4 * 4
  }

  function Zeros(n: nat): (r: seq<Byte>)
    ensures |r| == n && forall k | 0 <= k < n :: r[k] == 0
  {
    seq(n, _ => 0)
  }

  /** The two host-order (little-endian) bytes of a 16-bit field holding v;
      a value wider than the field keeps its low 16 bits, as a C store does
      (Le16Read). */
  function Le16(v: nat): (r: seq<Byte>)
    ensures |r| == 2
  {
    [v % 0x100, v / 0x100 % 0x100]
  }

  function Le32(v: nat): (r: seq<Byte>)
    ensures |r| == 4
  {
    [v % 0x100, v / 0x100 % 0x100, v / 0x1_0000 % 0x100, v / 0x100_0000 % 0x100]
  }

  /** Dividing by 0x100 peels off the low octet. */
  lemma Octets(v: nat)
    ensures v == v % 0x100 + 0x100 * (v / 0x100)
  {
  }

  /** Reading a stored 16-bit field gives the value modulo 2^16. */
  lemma Le16Read(v: nat)
    ensures ReadLe16(Le16(v), 0) == v % 0x1_0000
  {
    var q := v / 0x100;
    Octets(v);
    Octets(q);
    var r := v % 0x100 + 0x100 * (q % 0x100);
    assert v == 0x1_0000 * (q / 0x100) + r;
    assert 0 <= r < 0x1_0000;
  }

  /** Reading a stored 32-bit field gives the value modulo 2^32. */
  lemma Le32Read(v: nat)
    ensures ReadLe32(Le32(v), 0) == v % 0x1_0000_0000
  {
    var q1 := v / 0x100;
    var q2 := q1 / 0x100;
    var q3 := q2 / 0x100;
    Octets(v);
    Octets(q1);
    Octets(q2);
    Octets(q3);
    assert v / 0x1_0000 == q2;
    assert v / 0x100_0000 == q3;
    var r := v % 0x100 + 0x100 * (q1 % 0x100) + 0x1_0000 * (q2 % 0x100) + 0x100_0000 * (q3 % 0x100);
    assert v == 0x1_0000_0000 * (q3 / 0x100) + r;
    assert 0 <= r < 0x1_0000_0000;
  }

  function ReadLe16(s: seq<Byte>, i: nat): U16
    requires i + 2 <= |s|
  {
    s[i] as int + 0x100 * (s[i + 1] as int)
  }

  function ReadLe32(s: seq<Byte>, i: nat): U32
    requires i + 4 <= |s|
  {
    s[i] as int + 0x100 * (s[i + 1] as int) + 0x1_0000 * (s[i + 2] as int)
      + 0x100_0000 * (s[i + 3] as int)
  }

  /** An attribute tree: a leaf carries raw payload bytes, a nest its children. */
  datatype Attr = Leaf(tag: U16, data: seq<Byte>) | Nest(tag: U16, kids: seq<Attr>)

  /** The attribute header: rta_len then rta_type. */
  function Header(len: nat, tag: U16): (r: seq<Byte>)
    ensures |r| == RTA_HDRLEN
  {
    Le16(len) + Le16(tag)
  }

  /** The payload bytes of an attribute (RTA_DATA .. RTA_DATA + RTA_PAYLOAD). */
  function Payload(a: Attr): seq<Byte>
    decreases a, 0
  {
    match a
    case Leaf(_, p) => p
    case Nest(_, kids) => EncodeAll(kids)
  }

  /** The length an attribute declares in rta_len before truncation to 16 bits. */
  function DeclLen(a: Attr): nat
  {
    RTA_HDRLEN + |Payload(a)|
  }

  /** The bytes an attribute occupies: header, payload, zero padding. */
  function Encode(a: Attr): seq<Byte>
    decreases a, 1
  {
    var p := Payload(a);
    Header(RTA_HDRLEN + |p|, a.tag) + p + Zeros(Align4(RTA_HDRLEN + |p|) - RTA_HDRLEN - |p|)
  }

  /** Consecutive attributes, each at a 4-byte boundary. */
  function EncodeAll(kids: seq<Attr>): seq<Byte>
    decreases kids, 2
  {
    if kids == [] then [] else Encode(kids[0]) + EncodeAll(kids[1..])
  }

  /** The sum of the children's aligned lengths. */
  function SumAligned(kids: seq<Attr>): nat
  {
    if kids == [] then 0 else Align4(DeclLen(kids[0])) + SumAligned(kids[1..])
  }

  lemma EncodeShape(a: Attr)
    ensures |Encode(a)| == Align4(DeclLen(a))
    ensures Encode(a)[..2] == Le16(DeclLen(a))
    ensures Encode(a)[2..4] == Le16(a.tag)
    ensures Encode(a)[4..DeclLen(a)] == Payload(a)
  {
    var p := Payload(a);
    var h, e := Header(DeclLen(a), a.tag), Encode(a);
    assert e == h + p + Zeros(Align4(DeclLen(a)) - DeclLen(a));
    assert e[..2] == h[..2] && e[2..4] == h[2..4];
  }

  /** The header fields read back from an attribute's encoding. */
  lemma EncodeHeader(a: Attr)
    requires DeclLen(a) < 0x1_0000
    ensures |Encode(a)| >= RTA_HDRLEN
    ensures ReadLe16(Encode(a), 0) == DeclLen(a) && ReadLe16(Encode(a), 2) == a.tag
  {
    EncodeShape(a);
    var e := Encode(a);
    Le16Read(DeclLen(a));
    Le16Read(a.tag);
    assert ReadLe16(e, 0) == ReadLe16(e[..2], 0);
    assert ReadLe16(e, 2) == ReadLe16(e[2..4], 0);
  }

  /** Every encoding of a sequence of attributes spans exactly the sum of
      their aligned lengths, so it is itself a multiple of 4 long. */
  lemma {:induction false} EncodeAllLength(kids: seq<Attr>)
    ensures |EncodeAll(kids)| == SumAligned(kids)
    ensures |EncodeAll(kids)| % 4 == 0
  {
    if kids != [] {
      var a, rest := kids[0], kids[1..];
      EncodeShape(a);
      EncodeAllLength(rest);
      assert EncodeAll(kids) == Encode(a) + EncodeAll(rest);
      assert SumAligned(kids) == Align4(DeclLen(a)) + SumAligned(rest);
      AlignedSum(Align4(DeclLen(a)), SumAligned(rest));
    }
  }

  lemma AlignedSum(x: nat, y: nat)
    requires x % 4 == 0 && y % 4 == 0
    ensures (x + y) % 4 == 0
  {
  }

  /** An aligned length needs no padding. */
  lemma AlignExact(n: nat)
    requires n % 4 == 0
    ensures Align4(n) == n
  {
    assert n == n / 4 * 4;
    assert (n + 3) / 4 == n / 4;
  }

  /** A nest's declared length is 4 plus the sum of its children's aligned
      lengths, and a nest needs no padding of its own. */
  lemma NestLength(t: U16, kids: seq<Attr>)
    requires DeclLen(Nest(t, kids)) < 0x1_0000
    ensures ReadLe16(Encode(Nest(t, kids)), 0) == RTA_HDRLEN + SumAligned(kids)
    ensures |Encode(Nest(t, kids))| == RTA_HDRLEN + SumAligned(kids)
  {
    var a := Nest(t, kids);
    EncodeAllLength(kids);
    assert DeclLen(a) == RTA_HDRLEN + SumAligned(kids);
    AlignedSum(RTA_HDRLEN, SumAligned(kids));
    AlignExact(DeclLen(a));
    EncodeShape(a);
    EncodeHeader(a);
  }

  lemma {:induction false} EncodeAllSnoc(kids: seq<Attr>, a: Attr)
    ensures EncodeAll(kids + [a]) == EncodeAll(kids) + Encode(a)
  {
    if kids == [] {
      assert [a][1..] == [];
    } else {
      assert (kids + [a])[1..] == kids[1..] + [a];
      EncodeAllSnoc(kids[1..], a);
    }
  }

  /** One record as the walk sees it: rta_type and the RTA_PAYLOAD bytes. */
  datatype Rec = Rec(tag: U16, data: seq<Byte>)

  function Flat(kids: seq<Attr>): (r: seq<Rec>)
    ensures |r| == |kids|
  {
    if kids == [] then [] else [Rec(kids[0].tag, Payload(kids[0]))] + Flat(kids[1..])
  }

  /** RTA_OK(rta, rem) for the attribute at offset i, rem bytes remaining. */
  predicate RtaOk(s: seq<Byte>, i: nat, rem: int)
    requires rem >= 0 ==> i + rem <= |s|
  {
    rem >= RTA_HDRLEN && RTA_HDRLEN <= ReadLe16(s, i) <= rem
  }

  /** All records of a region (parse_rtattr over RTA_DATA, RTA_PAYLOAD). */
  function Records(s: seq<Byte>): seq<Rec>
  {
    WalkFrom(s, 0, |s|)
  }

  /** A rounding rule RTA_NEXT may step by: one that never shrinks a
      length.  RTA_ALIGN (Align4) is one.  The decoders' loops are proved
      for any such rule, which keeps the alignment arithmetic out of their
      proofs; WalkFrom is the walk with RTA_ALIGN. */
  ghost predicate Rounding(align: nat -> nat)
  {
    forall n: nat :: n <= align(n)
  }

  /** WalkFrom, stepping by align(rta_len). */
  function WalkBy(s: seq<Byte>, i: nat, rem: int, align: nat -> nat): seq<Rec>
    requires rem >= 0 ==> i + rem <= |s|
    requires Rounding(align)
    decreases rem + 4
  {
    if !RtaOk(s, i, rem) then []
    else
      var len := ReadLe16(s, i);
      [Rec(ReadLe16(s, i + 2), s[i + RTA_HDRLEN .. i + len])]
        + WalkBy(s, i + align(len), rem - align(len), align)
  }

  /** RemAfter, stepping by align(rta_len). */
  function RemBy(s: seq<Byte>, i: nat, rem: int, align: nat -> nat): (r: int)
    requires rem >= 0 ==> i + rem <= |s|
    requires Rounding(align)
    ensures r <= rem
    decreases rem + 4
  {
    if !RtaOk(s, i, rem) then rem
    else
      var len := ReadLe16(s, i);
      RemBy(s, i + align(len), rem - align(len), align)
  }

  lemma AlignRounding()
    ensures Rounding(Align4)
  {
  }

  /** The records a `for (i = start; RTA_OK(i, rem); i = RTA_NEXT(i, rem))`
      loop visits, starting at offset i with rem bytes remaining, with
      RTA_NEXT as libnetlink defines it: step by RTA_ALIGN(rta_len). */
  function WalkFrom(s: seq<Byte>, i: nat, rem: int): seq<Rec>
    requires rem >= 0 ==> i + rem <= |s|
  {
    AlignRounding();
    WalkBy(s, i, rem, Align4)
  }

  /** The value `rem` holds when that loop stops. */
  function RemAfter(s: seq<Byte>, i: nat, rem: int): (r: int)
    requires rem >= 0 ==> i + rem <= |s|
    ensures r <= rem
  {
    AlignRounding();
    RemBy(s, i, rem, Align4)
  }

  /** One step of the generic walk over a record that RTA_OK accepts. */
  lemma StepBy(s: seq<Byte>, i: nat, rem: int, align: nat -> nat)
    requires rem >= 0 ==> i + rem <= |s|
    requires Rounding(align) && RtaOk(s, i, rem)
    ensures var len := ReadLe16(s, i);
      WalkBy(s, i, rem, align)
        == [Rec(ReadLe16(s, i + 2), s[i + RTA_HDRLEN .. i + len])] + WalkBy(s, i + align(len), rem - align(len), align)
  {
  }

  /** RTA_NEXT's step leaves the final `rem` unchanged. */
  lemma RemStepBy(s: seq<Byte>, i: nat, rem: int, align: nat -> nat)
    requires rem >= 0 ==> i + rem <= |s|
    requires Rounding(align) && RtaOk(s, i, rem)
    ensures var len := ReadLe16(s, i);
      RemBy(s, i, rem, align) == RemBy(s, i + align(len), rem - align(len), align)
  {
  }

  /** The generic walk stops where RTA_OK fails. */
  lemma EndBy(s: seq<Byte>, i: nat, rem: int, align: nat -> nat)
    requires rem >= 0 ==> i + rem <= |s|
    requires Rounding(align) && !RtaOk(s, i, rem)
    ensures WalkBy(s, i, rem, align) == [] && RemBy(s, i, rem, align) == rem
  {
  }

  /** The type parse_rtattr_flags indexes a record by: rta_type with the
      given flag bits cleared (NLA_F_NESTED, or none). */
  function Masked(tag: U16, stripNested: bool): (r: U16)
    ensures stripNested ==> r < NLA_F_NESTED && (tag < NLA_F_NESTED ==> r == tag)
    ensures stripNested && tag >= NLA_F_NESTED ==> r == tag - NLA_F_NESTED
    ensures !stripNested ==> r == tag
  {
    if stripNested then tag % NLA_F_NESTED else tag
  }

  /** `t | NLA_F_NESTED`. */
  function WithNested(t: U16): (r: U16)
    ensures r >= NLA_F_NESTED && Masked(r, true) == Masked(t, true)
  {
    if t < NLA_F_NESTED then t + NLA_F_NESTED else t
  }

  /** tb[t] after parse_rtattr_flags: the first record whose masked type is t
      (a later duplicate does not overwrite it), or none. */
  function Lookup(recs: seq<Rec>, t: U16, stripNested: bool): (r: Option<Rec>)
    ensures r.Some? ==> r.value in recs && Masked(r.value.tag, stripNested) == t
    ensures r.None? <==> forall k | 0 <= k < |recs| :: Masked(recs[k].tag, stripNested) != t
  {
    if recs == [] then None
    else if Masked(recs[0].tag, stripNested) == t then Some(recs[0])
    else Lookup(recs[1..], t, stripNested)
  }

  /** The record Lookup finds is the first one of masked type t: every
      record before it has another type. */
  lemma {:induction false} LookupIsFirst(recs: seq<Rec>, t: U16, stripNested: bool)
    requires Lookup(recs, t, stripNested).Some?
    ensures exists k | 0 <= k < |recs| :: recs[k] == Lookup(recs, t, stripNested).value
              && forall j | 0 <= j < k :: Masked(recs[j].tag, stripNested) != t
  {
    if Masked(recs[0].tag, stripNested) != t {
      LookupIsFirst(recs[1..], t, stripNested);
      var k :| 0 <= k < |recs[1..]| && recs[1..][k] == Lookup(recs[1..], t, stripNested).value
               && forall j | 0 <= j < k :: Masked(recs[1..][j].tag, stripNested) != t;
      assert recs[k + 1] == Lookup(recs, t, stripNested).value;
      assert forall j | 0 <= j < k + 1 :: Masked(recs[j].tag, stripNested) != t by {
        forall j | 0 <= j < k + 1 ensures Masked(recs[j].tag, stripNested) != t {
          if j > 0 { assert recs[j] == recs[1..][j - 1]; }
        }
      }
    } else {
      assert recs[0] == Lookup(recs, t, stripNested).value;
    }
  }

  /** Whether every attribute's declared length fits the 16-bit rta_len. */
  predicate AllFit(kids: seq<Attr>)
  {
    forall k | 0 <= k < |kids| :: DeclLen(kids[k]) < 0x1_0000
  }

  /** Reads from a buffer region equal to w are reads from w. */
  lemma ReadInSlice(s: seq<Byte>, i: nat, w: seq<Byte>, d: nat)
    requires i + |w| <= |s| && s[i .. i + |w|] == w
    requires 4 <= d <= |w|
    ensures ReadLe16(s, i) == ReadLe16(w[..2], 0)
    ensures ReadLe16(s, i + 2) == ReadLe16(w[2..4], 0)
    ensures s[i + RTA_HDRLEN .. i + d] == w[4..d]
  {
    forall k | 0 <= k < |w| ensures s[i + k] == w[k] {
      assert s[i .. i + |w|][k] == s[i + k];
    }
    assert w[..2][0] == w[0] && w[..2][1] == w[1] && w[2..4][0] == w[2] && w[2..4][1] == w[3];
    var x, y := s[i + RTA_HDRLEN .. i + d], w[4..d];
    forall k | 0 <= k < |x| ensures x[k] == y[k] {
      assert x[k] == s[i + (4 + k)];
    }
  }

  /** Reading the header of an attribute's encoding back out of a buffer. */
  lemma HeaderAt(s: seq<Byte>, i: nat, a: Attr)
    requires DeclLen(a) < 0x1_0000
    requires i + |Encode(a)| <= |s| && s[i .. i + |Encode(a)|] == Encode(a)
    ensures ReadLe16(s, i) == DeclLen(a) && ReadLe16(s, i + 2) == a.tag
    ensures s[i + RTA_HDRLEN .. i + DeclLen(a)] == Payload(a)
  {
    EncodeShape(a);
    EncodeHeader(a);
    var e := Encode(a);
    ReadInSlice(s, i, e, DeclLen(a));
    assert ReadLe16(e, 0) == ReadLe16(e[..2], 0);
    assert ReadLe16(e, 2) == ReadLe16(e[2..4], 0);
  }

  /** One step of the walk over a record that RTA_OK accepts. */
  lemma WalkStep(s: seq<Byte>, i: nat, rem: int)
    requires rem >= 0 ==> i + rem <= |s|
    requires RtaOk(s, i, rem)
    ensures var len := ReadLe16(s, i);
      WalkFrom(s, i, rem)
        == [Rec(ReadLe16(s, i + 2), s[i + RTA_HDRLEN .. i + len])] + WalkFrom(s, i + Align4(len), rem - Align4(len))
  {
    AlignRounding();
    StepBy(s, i, rem, Align4);
  }

  lemma RemStep(s: seq<Byte>, i: nat, rem: int)
    requires rem >= 0 ==> i + rem <= |s|
    requires RtaOk(s, i, rem)
    ensures var len := ReadLe16(s, i);
      RemAfter(s, i, rem) == RemAfter(s, i + Align4(len), rem - Align4(len))
  {
    AlignRounding();
    RemStepBy(s, i, rem, Align4);
  }

  /** The walk stops where RTA_OK fails. */
  lemma WalkEnd(s: seq<Byte>, i: nat, rem: int)
    requires rem >= 0 ==> i + rem <= |s|
    requires !RtaOk(s, i, rem)
    ensures WalkFrom(s, i, rem) == [] && RemAfter(s, i, rem) == rem
  {
    AlignRounding();
    EndBy(s, i, rem, Align4);
  }

  /** A buffer region holding a + b holds a, then b. */
  lemma SliceSplit(s: seq<Byte>, i: nat, a: seq<Byte>, b: seq<Byte>)
    requires i + |a| + |b| <= |s| && s[i .. i + |a| + |b|] == a + b
    ensures s[i .. i + |a|] == a && s[i + |a| .. i + |a| + |b|] == b
  {
    var w := s[i .. i + |a| + |b|];
    assert s[i .. i + |a|] == w[..|a|];
    assert s[i + |a| .. i + |a| + |b|] == w[|a|..];
  }

  lemma SplitFirst(s: seq<Byte>, i: nat, kids: seq<Attr>)
    requires kids != []
    requires i + |EncodeAll(kids)| <= |s|
    requires s[i .. i + |EncodeAll(kids)|] == EncodeAll(kids)
    ensures |EncodeAll(kids)| == |Encode(kids[0])| + |EncodeAll(kids[1..])|
    ensures s[i .. i + |Encode(kids[0])|] == Encode(kids[0])
    ensures s[i + |Encode(kids[0])| .. i + |EncodeAll(kids)|] == EncodeAll(kids[1..])
    ensures AllFit(kids) ==> AllFit(kids[1..])
  {
    var ea, rest := Encode(kids[0]), EncodeAll(kids[1..]);
    assert EncodeAll(kids) == ea + rest;
    SliceSplit(s, i, ea, rest);
    if AllFit(kids) {
      forall k | 0 <= k < |kids[1..]| ensures DeclLen(kids[1..][k]) < 0x1_0000 {
        assert kids[1..][k] == kids[k + 1];
      }
    }
  }

  /** Round trip: walking the encoding of a sequence of attributes (wherever
      it sits in a buffer) yields each attribute's type and payload in order,
      and the walk consumes the region exactly, leaving rem == 0. */
  lemma {:induction false} WalkEncodeAll(s: seq<Byte>, i: nat, kids: seq<Attr>)
    requires AllFit(kids)
    requires i + |EncodeAll(kids)| <= |s|
    requires s[i .. i + |EncodeAll(kids)|] == EncodeAll(kids)
    ensures WalkFrom(s, i, |EncodeAll(kids)|) == Flat(kids)
    ensures RemAfter(s, i, |EncodeAll(kids)|) == 0
  {
    WalkEncoded(s, i, |EncodeAll(kids)|, kids);
    RemEncoded(s, i, |EncodeAll(kids)|, kids);
  }

  /** The walk over a whole encoding gives its records. */
  lemma WalkAll(kids: seq<Attr>)
    requires AllFit(kids)
    ensures Records(EncodeAll(kids)) == Flat(kids)
  {
    var e := EncodeAll(kids);
    assert e[0..|e|] == e;
    WalkEncodeAll(e, 0, kids);
  }

  /** The j-th record of a flattened run is the j-th attribute's type and
      payload. */
  lemma {:induction false} FlatAt(kids: seq<Attr>, j: nat)
    requires j < |kids|
    ensures Flat(kids)[j] == Rec(kids[j].tag, Payload(kids[j]))
    decreases j
  {
    if j > 0 {
      FlatAt(kids[1..], j - 1);
    }
  }

  /** The table entry for t is the first record whose masked type is t. */
  lemma {:induction false} LookupFirst(recs: seq<Rec>, t: U16, stripNested: bool, j: nat)
    requires j < |recs| && Masked(recs[j].tag, stripNested) == t
    requires forall i | 0 <= i < j :: Masked(recs[i].tag, stripNested) != t
    ensures Lookup(recs, t, stripNested) == Some(recs[j])
    decreases j
  {
    if j > 0 {
      LookupFirst(recs[1..], t, stripNested, j - 1);
    }
  }

  /** parse_rtattr over an encoded run files each attribute under its
      (masked) type, unless an earlier attribute has the same one. */
  lemma LookupEncoded(kids: seq<Attr>, j: nat, stripNested: bool)
    requires AllFit(kids) && j < |kids|
    requires forall i | 0 <= i < j :: Masked(kids[i].tag, stripNested) != Masked(kids[j].tag, stripNested)
    ensures Lookup(Records(EncodeAll(kids)), Masked(kids[j].tag, stripNested), stripNested)
         == Some(Rec(kids[j].tag, Payload(kids[j])))
  {
    WalkAll(kids);
    var recs := Flat(kids);
    forall i | 0 <= i <= j
      ensures recs[i] == Rec(kids[i].tag, Payload(kids[i]))
    {
      FlatAt(kids, i);
    }
    LookupFirst(recs, Masked(kids[j].tag, stripNested), stripNested, j);
  }

  /** The walk's first step over an encoding reads back its first attribute. */
  lemma WalkFirst(s: seq<Byte>, i: nat, rem: nat, kids: seq<Attr>)
    requires kids != [] && AllFit(kids)
    requires rem == |EncodeAll(kids)| && i + rem <= |s|
    requires s[i .. i + rem] == EncodeAll(kids)
    ensures |Encode(kids[0])| <= rem
    ensures WalkFrom(s, i, rem)
      == [Rec(kids[0].tag, Payload(kids[0]))] + WalkFrom(s, i + |Encode(kids[0])|, rem - |Encode(kids[0])|)
  {
    FirstRecord(s, i, rem, kids);
    WalkStep(s, i, rem);
  }

  /** The walk's first step over an encoding moves past its first attribute. */
  lemma RemFirst(s: seq<Byte>, i: nat, rem: nat, kids: seq<Attr>)
    requires kids != [] && AllFit(kids)
    requires rem == |EncodeAll(kids)| && i + rem <= |s|
    requires s[i .. i + rem] == EncodeAll(kids)
    ensures |Encode(kids[0])| <= rem
    ensures RemAfter(s, i, rem) == RemAfter(s, i + |Encode(kids[0])|, rem - |Encode(kids[0])|)
  {
    FirstRecord(s, i, rem, kids);
    RemStep(s, i, rem);
  }

  /** RTA_OK accepts the first attribute of an encoding, and reads back its
      type and payload. */
  lemma FirstRecord(s: seq<Byte>, i: nat, rem: nat, kids: seq<Attr>)
    requires kids != [] && AllFit(kids)
    requires rem == |EncodeAll(kids)| && i + rem <= |s|
    requires s[i .. i + rem] == EncodeAll(kids)
    ensures |Encode(kids[0])| <= rem
    ensures RtaOk(s, i, rem) && ReadLe16(s, i + 2) == kids[0].tag
    ensures s[i + RTA_HDRLEN .. i + ReadLe16(s, i)] == Payload(kids[0])
    ensures Align4(ReadLe16(s, i)) == |Encode(kids[0])|
  {
    var a := kids[0];
    assert DeclLen(a) < 0x1_0000;
    SplitFirst(s, i, kids);
    EncodeShape(a);
    HeaderAt(s, i, a);
  }

  /** After the first attribute, the rest of the region holds the
      encoding of the remaining attributes. */
  lemma EncodedTail(s: seq<Byte>, i: nat, rem: nat, kids: seq<Attr>)
    requires kids != [] && AllFit(kids)
    requires rem == |EncodeAll(kids)| && i + rem <= |s|
    requires s[i .. i + rem] == EncodeAll(kids)
    ensures |Encode(kids[0])| <= rem && AllFit(kids[1..])
    ensures rem - |Encode(kids[0])| == |EncodeAll(kids[1..])|
    ensures s[i + |Encode(kids[0])| .. i + rem] == EncodeAll(kids[1..])
  {
    SplitFirst(s, i, kids);
  }

  lemma {:induction false} WalkEncoded(s: seq<Byte>, i: nat, rem: nat, kids: seq<Attr>)
    requires AllFit(kids)
    requires rem == |EncodeAll(kids)| && i + rem <= |s|
    requires s[i .. i + rem] == EncodeAll(kids)
    ensures WalkFrom(s, i, rem) == Flat(kids)
    decreases kids
  {
    if kids == [] {
      WalkEnd(s, i, rem);
    } else {
      var n := |Encode(kids[0])|;
      EncodedTail(s, i, rem, kids);
      WalkFirst(s, i, rem, kids);
      WalkEncoded(s, i + n, rem - n, kids[1..]);
      assert Flat(kids) == [Rec(kids[0].tag, Payload(kids[0]))] + Flat(kids[1..]);
    }
  }

  lemma {:induction false} RemEncoded(s: seq<Byte>, i: nat, rem: nat, kids: seq<Attr>)
    requires AllFit(kids)
    requires rem == |EncodeAll(kids)| && i + rem <= |s|
    requires s[i .. i + rem] == EncodeAll(kids)
    ensures RemAfter(s, i, rem) == 0
    decreases kids
  {
    if kids == [] {
      WalkEnd(s, i, rem);
    } else {
      var n := |Encode(kids[0])|;
      EncodedTail(s, i, rem, kids);
      RemFirst(s, i, rem, kids);
      RemEncoded(s, i + n, rem - n, kids[1..]);
    }
  }
}

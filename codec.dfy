/**
 * The binary layout of the two index files, as index.cpp writes them and
 * search.cpp's loaders read them back. Every integer is a 4-byte signed
 * little-endian int32; strings are their raw bytes after an int32 length;
 * there is no padding.
 *
 *   inverted index: count, then per term: len, term bytes, n, n doc ids
 *   forward index:  count, then per doc: doc id, len, title bytes, len, url bytes
 *
 * Decoding is specified here as functions over the unread bytes of the file
 * that give a value and the bytes after it, or fail (`None`) when a field
 * runs past the end of the file or a length is negative.
 */
module Codec {
  import opened Common
  import opened Records

  const TwoTo32: int := 0x1_0000_0000
  const TwoTo31: int := 0x8000_0000

  predicate IsInt32(x: int) { -TwoTo31 <= x < TwoTo31 }

  /** `static_cast<int>` of a count or length: the value modulo 2^32, read as a signed int32. */
  function Wrap32(x: int): (r: int)
    ensures IsInt32(r)
    ensures (x - r) % TwoTo32 == 0
    ensures IsInt32(x) ==> r == x
  {
    var u := x % TwoTo32;
    if u >= TwoTo31 then u - TwoTo32 else u
  }

  /** The four bytes `write` emits for an `int`, low byte first. */
  function EncodeInt32(x: int): (r: seq<Byte>)
    ensures |r| == 4
  {
    var u := x % TwoTo32;
    [u % 256, (u / 256) % 256, (u / 65536) % 256, u / 16777216]
  }

  /** The `int` that `read` fills from four bytes. */
  function DecodeInt32(b: seq<Byte>): (x: int)
    requires |b| == 4
    ensures IsInt32(x)
  {
    var u: int := b[0] as int + 256 * (b[1] as int) + 65536 * (b[2] as int) + 16777216 * (b[3] as int);
    if u >= TwoTo31 then u - TwoTo32 else u
  }

  /** Writing an int and reading it back gives the int32 the source's cast produced. */
  lemma DecodeEncodeInt32(x: int)
    ensures DecodeInt32(EncodeInt32(x)) == Wrap32(x)
    ensures IsInt32(x) ==> DecodeInt32(EncodeInt32(x)) == x
  {
    var u := x % TwoTo32;
    assert u == u % 256 + 256 * (u / 256);
    assert u / 256 == (u / 256) % 256 + 256 * (u / 65536);
    assert u / 65536 == (u / 65536) % 256 + 256 * (u / 16777216);
  }

  /** A string's raw bytes. */
  function StrBytes(s: Str): (r: seq<Byte>)
    ensures |r| == |s|
  {
    seq(|s|, i requires 0 <= i < |s| => s[i] as int)
  }

  /** Raw bytes read into a string. */
  function BytesStr(b: seq<Byte>): (r: Str)
    ensures |r| == |b|
  {
    seq(|b|, i requires 0 <= i < |b| => b[i] as char)
  }

  lemma BytesStrRoundTrip(s: Str)
    ensures BytesStr(StrBytes(s)) == s
  {
  }

  // ---------------------------------------------------------------------------
  // Encoding

  function EncodeInts(ids: seq<int>): (r: seq<Byte>)
    ensures |r| == 4 * |ids|
  {
    if ids == [] then [] else EncodeInt32(ids[0]) + EncodeInts(ids[1..])
  }

  function EncodeTerm(r: TermRecord): seq<Byte>
  {
    EncodeInt32(|r.term|) + StrBytes(r.term) + EncodeInt32(|r.docIds|) + EncodeInts(r.docIds)
  }

  function EncodeTerms(rs: seq<TermRecord>): seq<Byte>
  {
    if rs == [] then [] else EncodeTerm(rs[0]) + EncodeTerms(rs[1..])
  }

  /** The bytes of inverted_index.bin for a term table. */
  function EncodeInverted(table: seq<TermRecord>): seq<Byte>
  {
    EncodeInt32(|table|) + EncodeTerms(table)
  }

  function EncodeDoc(d: DocRecord): seq<Byte>
  {
    EncodeInt32(d.docId) + EncodeInt32(|d.title|) + StrBytes(d.title) + EncodeInt32(|d.url|) + StrBytes(d.url)
  }

  function EncodeDocs(ds: seq<DocRecord>): seq<Byte>
  {
    if ds == [] then [] else EncodeDoc(ds[0]) + EncodeDocs(ds[1..])
  }

  /** The bytes of forward_index.bin for a document table. */
  function EncodeForward(docs: seq<DocRecord>): seq<Byte>
  {
    EncodeInt32(|docs|) + EncodeDocs(docs)
  }

  lemma {:induction false} EncodeIntsSnoc(ids: seq<int>, x: int)
    ensures EncodeInts(ids + [x]) == EncodeInts(ids) + EncodeInt32(x)
  {
    if ids != [] {
      assert (ids + [x])[1..] == ids[1..] + [x];
      EncodeIntsSnoc(ids[1..], x);
    } else {
      assert [x][1..] == [];
    }
  }

  lemma {:induction false} EncodeTermsSnoc(rs: seq<TermRecord>, r: TermRecord)
    ensures EncodeTerms(rs + [r]) == EncodeTerms(rs) + EncodeTerm(r)
  {
    if rs != [] {
      assert (rs + [r])[1..] == rs[1..] + [r];
      EncodeTermsSnoc(rs[1..], r);
    } else {
      assert [r][1..] == [];
    }
  }

  lemma {:induction false} EncodeDocsSnoc(ds: seq<DocRecord>, d: DocRecord)
    ensures EncodeDocs(ds + [d]) == EncodeDocs(ds) + EncodeDoc(d)
  {
    if ds != [] {
      assert (ds + [d])[1..] == ds[1..] + [d];
      EncodeDocsSnoc(ds[1..], d);
    } else {
      assert [d][1..] == [];
    }
  }

  // ---------------------------------------------------------------------------
  // Decoding: each reader takes the unread bytes and gives a value and the bytes after it

  function ReadInt32(b: seq<Byte>): (r: Option<(int, seq<Byte>)>)
    ensures r.Some? <==> |b| >= 4
    ensures r.Some? ==> r.value.1 == b[4..]
  {
    if |b| >= 4 then Some((DecodeInt32(b[..4]), b[4..])) else None
  }

  /** `len` raw bytes; a negative length fails like the source's `std::string(len, '\0')`. */
  function ReadStr(b: seq<Byte>, len: int): (r: Option<(Str, seq<Byte>)>)
    ensures r.Some? <==> 0 <= len <= |b|
    ensures r.Some? ==> |r.value.0| == len && r.value.1 == b[len..]
  {
    if len < 0 || len > |b| then None else Some((BytesStr(b[..len]), b[len..]))
  }

  /** `n` int32 values. */
  function ReadInts(b: seq<Byte>, n: nat): (r: Option<(seq<int>, seq<Byte>)>)
    ensures r.Some? <==> 4 * n <= |b|
    ensures r.Some? ==> |r.value.0| == n && |r.value.1| == |b| - 4 * n
    decreases n
  {
    if n == 0 then Some(([], b))
    else
      match ReadInt32(b)
      case None => None
      case Some((x, b1)) =>
        match ReadInts(b1, n - 1)
        case None => None
        case Some((xs, b2)) => Some(([x] + xs, b2))
  }

  /** A length-prefixed string. */
  function ReadString(b: seq<Byte>): (r: Option<(Str, seq<Byte>)>)
    ensures r.Some? ==> |r.value.1| == |b| - 4 - |r.value.0|
  {
    match ReadInt32(b)
    case None => None
    case Some((len, b1)) => ReadStr(b1, len)
  }

  /** One term record: term, posting count, postings. A negative count fails like `std::vector<int>(n)`. */
  function ReadTerm(b: seq<Byte>): (r: Option<(TermRecord, seq<Byte>)>)
    ensures r.Some? ==> |r.value.1| < |b|
  {
    match ReadString(b)
    case None => None
    case Some((term, b1)) =>
      match ReadInt32(b1)
      case None => None
      case Some((n, b2)) =>
        if n < 0 then None
        else
          match ReadInts(b2, n)
          case None => None
          case Some((ids, b3)) => Some((TermRecord(term, ids), b3))
  }

  /** `n` term records. */
  function ReadTerms(b: seq<Byte>, n: nat): (r: Option<(seq<TermRecord>, seq<Byte>)>)
    ensures r.Some? ==> |r.value.0| == n && |r.value.1| <= |b|
    decreases n
  {
    if n == 0 then Some(([], b))
    else
      match ReadTerm(b)
      case None => None
      case Some((rec, b1)) =>
        match ReadTerms(b1, n - 1)
        case None => None
        case Some((recs, b2)) => Some(([rec] + recs, b2))
  }

  /**
   * The term table of an inverted_index.bin: a count that is zero or
   * negative gives the empty table, as the source's loop never runs.
   */
  function DecodeInverted(b: seq<Byte>): Option<seq<TermRecord>>
  {
    match ReadInt32(b)
    case None => None
    case Some((n, b1)) =>
      if n <= 0 then Some([])
      else
        match ReadTerms(b1, n)
        case None => None
        case Some((recs, _)) => Some(recs)
  }

  /** One document record: doc id, title, URL. */
  function ReadDoc(b: seq<Byte>): (r: Option<(DocRecord, seq<Byte>)>)
    ensures r.Some? ==> |r.value.1| < |b|
  {
    match ReadInt32(b)
    case None => None
    case Some((id, b1)) =>
      match ReadString(b1)
      case None => None
      case Some((title, b2)) =>
        match ReadString(b2)
        case None => None
        case Some((url, b3)) => Some((DocRecord(id, title, url), b3))
  }

  /** `n` document records. */
  function ReadDocs(b: seq<Byte>, n: nat): (r: Option<(seq<DocRecord>, seq<Byte>)>)
    ensures r.Some? ==> |r.value.0| == n && |r.value.1| <= |b|
    decreases n
  {
    if n == 0 then Some(([], b))
    else
      match ReadDoc(b)
      case None => None
      case Some((doc, b1)) =>
        match ReadDocs(b1, n - 1)
        case None => None
        case Some((docs, b2)) => Some(([doc] + docs, b2))
  }

  /** The document table of a forward_index.bin. */
  function DecodeForward(b: seq<Byte>): Option<seq<DocRecord>>
  {
    match ReadInt32(b)
    case None => None
    case Some((n, b1)) =>
      if n <= 0 then Some([])
      else
        match ReadDocs(b1, n)
        case None => None
        case Some((docs, _)) => Some(docs)
  }

  // ---------------------------------------------------------------------------
  // Round trip: what index.cpp writes, search.cpp reads back

  /** A term record whose lengths and ids survive the int32 fields unchanged. */
  predicate ValidTerm(r: TermRecord)
  {
    |r.term| < TwoTo31 && |r.docIds| < TwoTo31 && forall k :: 0 <= k < |r.docIds| ==> IsInt32(r.docIds[k])
  }

  predicate ValidInverted(table: seq<TermRecord>)
  {
    |table| < TwoTo31 && forall k :: 0 <= k < |table| ==> ValidTerm(table[k])
  }

  predicate ValidDoc(d: DocRecord)
  {
    IsInt32(d.docId) && |d.title| < TwoTo31 && |d.url| < TwoTo31
  }

  predicate ValidForward(docs: seq<DocRecord>)
  {
    |docs| < TwoTo31 && forall k :: 0 <= k < |docs| ==> ValidDoc(docs[k])
  }

  lemma ReadIntsCons(b: seq<Byte>, n: nat, x: int, b1: seq<Byte>, xs: seq<int>, b2: seq<Byte>)
    requires n > 0 && ReadInt32(b) == Some((x, b1)) && ReadInts(b1, n - 1) == Some((xs, b2))
    ensures ReadInts(b, n) == Some(([x] + xs, b2))
  {
  }

  lemma ReadTermsCons(b: seq<Byte>, n: nat, r: TermRecord, b1: seq<Byte>, rs: seq<TermRecord>, b2: seq<Byte>)
    requires n > 0 && ReadTerm(b) == Some((r, b1)) && ReadTerms(b1, n - 1) == Some((rs, b2))
    ensures ReadTerms(b, n) == Some(([r] + rs, b2))
  {
  }

  lemma ReadDocsCons(b: seq<Byte>, n: nat, d: DocRecord, b1: seq<Byte>, ds: seq<DocRecord>, b2: seq<Byte>)
    requires n > 0 && ReadDoc(b) == Some((d, b1)) && ReadDocs(b1, n - 1) == Some((ds, b2))
    ensures ReadDocs(b, n) == Some(([d] + ds, b2))
  {
  }

  lemma ReadInt32Encoded(x: int, rest: seq<Byte>)
    ensures ReadInt32(EncodeInt32(x) + rest) == Some((Wrap32(x), rest))
  {
    var b := EncodeInt32(x) + rest;
    assert b[..4] == EncodeInt32(x);
    assert b[4..] == rest;
    DecodeEncodeInt32(x);
  }

  lemma ReadStrEncoded(s: Str, rest: seq<Byte>)
    ensures ReadStr(StrBytes(s) + rest, |s|) == Some((s, rest))
  {
    var b := StrBytes(s) + rest;
    assert b[..|s|] == StrBytes(s);
    assert b[|s|..] == rest;
    BytesStrRoundTrip(s);
  }

  lemma {:induction false} ReadIntsEncoded(ids: seq<int>, rest: seq<Byte>)
    requires forall k :: 0 <= k < |ids| ==> IsInt32(ids[k])
    ensures ReadInts(EncodeInts(ids) + rest, |ids|) == Some((ids, rest))
    decreases |ids|
  {
    if ids != [] {
      var b1 := EncodeInts(ids[1..]) + rest;
      assert EncodeInts(ids) + rest == EncodeInt32(ids[0]) + b1;
      ReadInt32Encoded(ids[0], b1);
      ReadIntsEncoded(ids[1..], rest);
      ReadIntsCons(EncodeInts(ids) + rest, |ids|, ids[0], b1, ids[1..], rest);
      assert [ids[0]] + ids[1..] == ids;
    } else {
      assert EncodeInts(ids) + rest == rest;
    }
  }

  lemma ReadStringEncoded(s: Str, rest: seq<Byte>)
    requires |s| < TwoTo31
    ensures ReadString(EncodeInt32(|s|) + StrBytes(s) + rest) == Some((s, rest))
  {
    assert EncodeInt32(|s|) + StrBytes(s) + rest == EncodeInt32(|s|) + (StrBytes(s) + rest);
    ReadInt32Encoded(|s|, StrBytes(s) + rest);
    ReadStrEncoded(s, rest);
  }

  lemma ReadTermEncoded(r: TermRecord, rest: seq<Byte>)
    requires ValidTerm(r)
    ensures ReadTerm(EncodeTerm(r) + rest) == Some((r, rest))
  {
    var ints := EncodeInts(r.docIds) + rest;
    var b1 := EncodeInt32(|r.docIds|) + ints;
    assert EncodeTerm(r) + rest == EncodeInt32(|r.term|) + StrBytes(r.term) + b1;
    ReadStringEncoded(r.term, b1);
    ReadInt32Encoded(|r.docIds|, ints);
    ReadIntsEncoded(r.docIds, rest);
  }

  lemma {:induction false} ReadTermsEncoded(rs: seq<TermRecord>, rest: seq<Byte>)
    requires forall k :: 0 <= k < |rs| ==> ValidTerm(rs[k])
    ensures ReadTerms(EncodeTerms(rs) + rest, |rs|) == Some((rs, rest))
    decreases |rs|
  {
    if rs != [] {
      var b1 := EncodeTerms(rs[1..]) + rest;
      assert EncodeTerms(rs) + rest == EncodeTerm(rs[0]) + b1;
      ReadTermEncoded(rs[0], b1);
      ReadTermsEncoded(rs[1..], rest);
      ReadTermsCons(EncodeTerms(rs) + rest, |rs|, rs[0], b1, rs[1..], rest);
      assert [rs[0]] + rs[1..] == rs;
    } else {
      assert EncodeTerms(rs) + rest == rest;
    }
  }

  /** Decoding what the indexer writes, followed by anything at all, gives back the term table. */
  lemma InvertedRoundTrip(table: seq<TermRecord>, rest: seq<Byte>)
    requires ValidInverted(table)
    ensures DecodeInverted(EncodeInverted(table) + rest) == Some(table)
  {
    assert EncodeInverted(table) + rest == EncodeInt32(|table|) + (EncodeTerms(table) + rest);
    ReadInt32Encoded(|table|, EncodeTerms(table) + rest);
    ReadTermsEncoded(table, rest);
  }

  /** `ReadDoc` from its three field reads. */
  lemma ReadDocOf(b: seq<Byte>, id: int, b1: seq<Byte>, title: Str, b2: seq<Byte>, url: Str, b3: seq<Byte>)
    requires ReadInt32(b) == Some((id, b1))
    requires ReadString(b1) == Some((title, b2)) && ReadString(b2) == Some((url, b3))
    ensures ReadDoc(b) == Some((DocRecord(id, title, url), b3))
  {
  }

  lemma ReadDocEncoded(d: DocRecord, rest: seq<Byte>)
    requires ValidDoc(d)
    ensures ReadDoc(EncodeDoc(d) + rest) == Some((d, rest))
  {
    var b2 := EncodeInt32(|d.url|) + StrBytes(d.url) + rest;
    var b1 := EncodeInt32(|d.title|) + StrBytes(d.title) + b2;
    assert EncodeDoc(d) + rest == EncodeInt32(d.docId) + b1;
    ReadInt32Encoded(d.docId, b1);
    ReadStringEncoded(d.title, b2);
    ReadStringEncoded(d.url, rest);
    ReadDocOf(EncodeDoc(d) + rest, d.docId, b1, d.title, b2, d.url, rest);
  }

  lemma {:induction false} ReadDocsEncoded(ds: seq<DocRecord>, rest: seq<Byte>)
    requires forall k :: 0 <= k < |ds| ==> ValidDoc(ds[k])
    ensures ReadDocs(EncodeDocs(ds) + rest, |ds|) == Some((ds, rest))
    decreases |ds|
  {
    if ds != [] {
      var b1 := EncodeDocs(ds[1..]) + rest;
      assert EncodeDocs(ds) + rest == EncodeDoc(ds[0]) + b1;
      ReadDocEncoded(ds[0], b1);
      ReadDocsEncoded(ds[1..], rest);
      ReadDocsCons(EncodeDocs(ds) + rest, |ds|, ds[0], b1, ds[1..], rest);
      assert [ds[0]] + ds[1..] == ds;
    } else {
      assert EncodeDocs(ds) + rest == rest;
    }
  }

  /** Decoding what the indexer writes, followed by anything at all, gives back the document table. */
  lemma ForwardRoundTrip(docs: seq<DocRecord>, rest: seq<Byte>)
    requires ValidForward(docs)
    ensures DecodeForward(EncodeForward(docs) + rest) == Some(docs)
  {
    assert EncodeForward(docs) + rest == EncodeInt32(|docs|) + (EncodeDocs(docs) + rest);
    ReadInt32Encoded(|docs|, EncodeDocs(docs) + rest);
    ReadDocsEncoded(docs, rest);
  }

  // ---------------------------------------------------------------------------
  // Truncated files fail: a read that succeeds reads the same when more bytes follow

  lemma ReadInt32Extend(b: seq<Byte>, c: seq<Byte>)
    requires ReadInt32(b).Some?
    ensures ReadInt32(b + c) == Some((ReadInt32(b).value.0, ReadInt32(b).value.1 + c))
  {
    assert (b + c)[..4] == b[..4];
    assert (b + c)[4..] == b[4..] + c;
  }

  lemma ReadStrExtend(b: seq<Byte>, c: seq<Byte>, len: int)
    requires ReadStr(b, len).Some?
    ensures ReadStr(b + c, len) == Some((ReadStr(b, len).value.0, ReadStr(b, len).value.1 + c))
  {
    assert (b + c)[..len] == b[..len];
    assert (b + c)[len..] == b[len..] + c;
  }

  lemma {:induction false} ReadIntsExtend(b: seq<Byte>, c: seq<Byte>, n: nat)
    requires ReadInts(b, n).Some?
    ensures ReadInts(b + c, n) == Some((ReadInts(b, n).value.0, ReadInts(b, n).value.1 + c))
    decreases n
  {
    if n > 0 {
      ReadInt32Extend(b, c);
      ReadIntsExtend(b[4..], c, n - 1);
    }
  }

  lemma ReadStringExtend(b: seq<Byte>, c: seq<Byte>)
    requires ReadString(b).Some?
    ensures ReadString(b + c) == Some((ReadString(b).value.0, ReadString(b).value.1 + c))
  {
    ReadInt32Extend(b, c);
    ReadStrExtend(b[4..], c, ReadInt32(b).value.0);
  }

  lemma ReadTermExtend(b: seq<Byte>, c: seq<Byte>)
    requires ReadTerm(b).Some?
    ensures ReadTerm(b + c) == Some((ReadTerm(b).value.0, ReadTerm(b).value.1 + c))
  {
    ReadStringExtend(b, c);
    var b1 := ReadString(b).value.1;
    ReadInt32Extend(b1, c);
    ReadIntsExtend(b1[4..], c, ReadInt32(b1).value.0);
  }

  lemma {:induction false} ReadTermsExtend(b: seq<Byte>, c: seq<Byte>, n: nat)
    requires ReadTerms(b, n).Some?
    ensures ReadTerms(b + c, n) == Some((ReadTerms(b, n).value.0, ReadTerms(b, n).value.1 + c))
    decreases n
  {
    if n > 0 {
      ReadTermExtend(b, c);
      ReadTermsExtend(ReadTerm(b).value.1, c, n - 1);
    }
  }

  /** Every proper prefix of an inverted index file fails to decode. */
  lemma TruncatedInvertedFails(table: seq<TermRecord>, k: nat)
    requires ValidInverted(table) && k < |EncodeInverted(table)|
    ensures DecodeInverted(EncodeInverted(table)[..k]) == None
  {
    var e := EncodeInverted(table);
    var b, c := e[..k], e[k..];
    assert b + c == e;
    if k >= 4 {
      ReadInt32Encoded(|table|, EncodeTerms(table));
      ReadInt32Extend(b, c);
      ReadTermsEncoded(table, []);
      assert EncodeTerms(table) + [] == EncodeTerms(table);
      if ReadTerms(b[4..], |table|).Some? {
        ReadTermsExtend(b[4..], c, |table|);
      }
    }
  }

  lemma ReadDocExtend(b: seq<Byte>, c: seq<Byte>)
    requires ReadDoc(b).Some?
    ensures ReadDoc(b + c) == Some((ReadDoc(b).value.0, ReadDoc(b).value.1 + c))
  {
    var b1 := b[4..];
    var b2 := ReadString(b1).value.1;
    ReadInt32Extend(b, c);
    ReadStringExtend(b1, c);
    ReadStringExtend(b2, c);
    var d := ReadDoc(b).value.0;
    ReadDocOf(b + c, d.docId, b1 + c, d.title, b2 + c, d.url, ReadDoc(b).value.1 + c);
  }

  lemma {:induction false} ReadDocsExtend(b: seq<Byte>, c: seq<Byte>, n: nat)
    requires ReadDocs(b, n).Some?
    ensures ReadDocs(b + c, n) == Some((ReadDocs(b, n).value.0, ReadDocs(b, n).value.1 + c))
    decreases n
  {
    if n > 0 {
      var (d, b1) := ReadDoc(b).value;
      var (ds, b2) := ReadDocs(b1, n - 1).value;
      ReadDocExtend(b, c);
      ReadDocsExtend(b1, c, n - 1);
      ReadDocsCons(b + c, n, d, b1 + c, ds, b2 + c);
    }
  }

  /** Every proper prefix of a forward index file fails to decode. */
  lemma TruncatedForwardFails(docs: seq<DocRecord>, k: nat)
    requires ValidForward(docs) && k < |EncodeForward(docs)|
    ensures DecodeForward(EncodeForward(docs)[..k]) == None
  {
    var e := EncodeForward(docs);
    var b, c := e[..k], e[k..];
    assert b + c == e;
    if k >= 4 {
      ReadInt32Encoded(|docs|, EncodeDocs(docs));
      ReadInt32Extend(b, c);
      ReadDocsEncoded(docs, []);
      assert EncodeDocs(docs) + [] == EncodeDocs(docs);
      if ReadDocs(b[4..], |docs|).Some? {
        ReadDocsExtend(b[4..], c, |docs|);
      }
    }
  }
}

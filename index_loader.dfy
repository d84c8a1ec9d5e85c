/**
 * The search tool's two loaders (`load_inverted_index` and
 * `load_forward_index` in search.cpp): one pass over the file's bytes with a
 * read cursor, each `file.read` taking the next field. Each loader is proved
 * to return exactly what the decoding functions of `Codec` give for the whole
 * file, so the round-trip and truncation lemmas there apply to them.
 */
module IndexLoader {
  import opened Common
  import opened Records
  import opened Codec

  /** `r` with `xs` in front of the values it read. */
  function Prepend<T>(xs: seq<T>, r: Option<(seq<T>, seq<Byte>)>): Option<(seq<T>, seq<Byte>)>
  {
    match r
    case None => None
    case Some((ys, rest)) => Some((xs + ys, rest))
  }

  /**
   * A read at a cursor agrees with a decoding function of the unread bytes:
   * both fail, or both give the same value and the cursor stops where the
   * function's unread bytes begin.
   */
  predicate Agrees<T(==)>(r: Option<(T, nat)>, b: seq<Byte>, s: Option<(T, seq<Byte>)>)
  {
    match r
    case None => s.None?
    case Some((v, p)) => p <= |b| && s == Some((v, b[p..]))
  }

  lemma PrependNothing<T>(r: Option<(seq<T>, seq<Byte>)>)
    ensures Prepend([], r) == r
  {
    if r.Some? {
      assert [] + r.value.0 == r.value.0;
    }
  }

  lemma PrependTwice<T>(xs: seq<T>, x: T, r: Option<(seq<T>, seq<Byte>)>)
    ensures Prepend(xs, Prepend([x], r)) == Prepend(xs + [x], r)
  {
    if r.Some? {
      assert xs + ([x] + r.value.0) == (xs + [x]) + r.value.0;
    }
  }

  lemma ReadInt32Here(b: seq<Byte>, pos: nat)
    requires pos + 4 <= |b|
    ensures ReadInt32(b[pos..]) == Some((DecodeInt32(b[pos..pos + 4]), b[pos + 4..]))
  {
    assert b[pos..][..4] == b[pos..pos + 4];
    assert b[pos..][4..] == b[pos + 4..];
  }

  lemma ReadStrHere(b: seq<Byte>, pos: nat, len: int)
    requires 0 <= len && pos + len <= |b|
    ensures ReadStr(b[pos..], len) == Some((BytesStr(b[pos..pos + len]), b[pos + len..]))
  {
    assert b[pos..][..len] == b[pos..pos + len];
    assert b[pos..][len..] == b[pos + len..];
  }

  lemma ReadIntsStep(c: seq<Byte>, m: nat)
    requires m > 0 && ReadInt32(c).Some?
    ensures ReadInts(c, m) == Prepend([ReadInt32(c).value.0], ReadInts(ReadInt32(c).value.1, m - 1))
  {
  }

  /** One more record read: it moves from the unread part to the front of the list read so far. */
  lemma ReadTermsStep(whole: Option<(seq<TermRecord>, seq<Byte>)>, done: seq<TermRecord>, c: seq<Byte>, m: nat, rec: TermRecord, c1: seq<Byte>)
    requires m > 0 && ReadTerm(c) == Some((rec, c1))
    requires whole == Prepend(done, ReadTerms(c, m))
    ensures whole == Prepend(done + [rec], ReadTerms(c1, m - 1))
  {
    PrependTwice(done, rec, ReadTerms(c1, m - 1));
  }

  /** One more record read: it moves from the unread part to the front of the list read so far. */
  lemma ReadDocsStep(whole: Option<(seq<DocRecord>, seq<Byte>)>, done: seq<DocRecord>, c: seq<Byte>, m: nat, doc: DocRecord, c1: seq<Byte>)
    requires m > 0 && ReadDoc(c) == Some((doc, c1))
    requires whole == Prepend(done, ReadDocs(c, m))
    ensures whole == Prepend(done + [doc], ReadDocs(c1, m - 1))
  {
    PrependTwice(done, doc, ReadDocs(c1, m - 1));
  }

  /** `n` doc ids from the cursor on, one `file.read` each. */
  method ReadIdsAt(b: seq<Byte>, pos: nat, n: nat) returns (r: Option<(seq<int>, nat)>)
    requires pos <= |b|
    ensures Agrees(r, b, ReadInts(b[pos..], n))
  {
    var ids: seq<int> := [];
    var p := pos;
    PrependNothing(ReadInts(b[pos..], n));
    for j := 0 to n
      invariant pos <= p <= |b|
      invariant ReadInts(b[pos..], n) == Prepend(ids, ReadInts(b[p..], n - j))
    {
      if p + 4 > |b| {
        return None;
      }
      var x := DecodeInt32(b[p..p + 4]);
      ReadInt32Here(b, p);
      ReadIntsStep(b[p..], n - j);
      PrependTwice(ids, x, ReadInts(b[p + 4..], n - j - 1));
      ids, p := ids + [x], p + 4;
    }
    assert ids + [] == ids;
    return Some((ids, p));
  }

  /** A length-prefixed string at the cursor: the length, then that many bytes. */
  method ReadStringAt(b: seq<Byte>, pos: nat) returns (r: Option<(Str, nat)>)
    requires pos <= |b|
    ensures Agrees(r, b, ReadString(b[pos..]))
  {
    if pos + 4 > |b| {
      return None;
    }
    var len := DecodeInt32(b[pos..pos + 4]);
    ReadInt32Here(b, pos);
    if len < 0 || pos + 4 + len > |b| {
      return None;
    }
    ReadStrHere(b, pos + 4, len);
    return Some((BytesStr(b[pos + 4..pos + 4 + len]), pos + 4 + len));
  }

  /** One term record at the cursor: term, posting count, postings. */
  method ReadTermAt(b: seq<Byte>, pos: nat) returns (r: Option<(TermRecord, nat)>)
    requires pos <= |b|
    ensures Agrees(r, b, ReadTerm(b[pos..]))
  {
    var term := ReadStringAt(b, pos);
    if term.None? {
      return None;
    }
    var p := term.value.1;
    if p + 4 > |b| {
      return None;
    }
    var numDocs := DecodeInt32(b[p..p + 4]);
    ReadInt32Here(b, p);
    if numDocs < 0 {
      return None;
    }
    var ids := ReadIdsAt(b, p + 4, numDocs);
    if ids.None? {
      return None;
    }
    return Some((TermRecord(term.value.0, ids.value.0), ids.value.1));
  }

  /** One document record at the cursor: doc id, title, URL. */
  method ReadDocAt(b: seq<Byte>, pos: nat) returns (r: Option<(DocRecord, nat)>)
    requires pos <= |b|
    ensures Agrees(r, b, ReadDoc(b[pos..]))
  {
    if pos + 4 > |b| {
      return None;
    }
    var docId := DecodeInt32(b[pos..pos + 4]);
    ReadInt32Here(b, pos);
    var title := ReadStringAt(b, pos + 4);
    if title.None? {
      return None;
    }
    var url := ReadStringAt(b, title.value.1);
    if url.None? {
      return None;
    }
    ReadDocOf(b[pos..], docId, b[pos + 4..], title.value.0, b[title.value.1..], url.value.0, b[url.value.1..]);
    return Some((DocRecord(docId, title.value.0, url.value.0), url.value.1));
  }

  /** The loaders' main loop: `n` term records from the cursor on. */
  method ReadTermsAt(b: seq<Byte>, pos: nat, n: nat) returns (r: Option<(seq<TermRecord>, nat)>)
    requires pos <= |b|
    ensures Agrees(r, b, ReadTerms(b[pos..], n))
  {
    var records: seq<TermRecord> := [];
    var p := pos;
    PrependNothing(ReadTerms(b[pos..], n));
    for i := 0 to n
      invariant pos <= p <= |b|
      invariant ReadTerms(b[pos..], n) == Prepend(records, ReadTerms(b[p..], n - i))
    {
      var rec := ReadTermAt(b, p);
      if rec.None? {
        return None;
      }
      ReadTermsStep(ReadTerms(b[pos..], n), records, b[p..], n - i, rec.value.0, b[rec.value.1..]);
      records, p := records + [rec.value.0], rec.value.1;
    }
    assert records + [] == records;
    return Some((records, p));
  }

  /** `n` document records from the cursor on. */
  method ReadDocsAt(b: seq<Byte>, pos: nat, n: nat) returns (r: Option<(seq<DocRecord>, nat)>)
    requires pos <= |b|
    ensures Agrees(r, b, ReadDocs(b[pos..], n))
  {
    var records: seq<DocRecord> := [];
    var p := pos;
    PrependNothing(ReadDocs(b[pos..], n));
    for i := 0 to n
      invariant pos <= p <= |b|
      invariant ReadDocs(b[pos..], n) == Prepend(records, ReadDocs(b[p..], n - i))
    {
      var doc := ReadDocAt(b, p);
      if doc.None? {
        return None;
      }
      ReadDocsStep(ReadDocs(b[pos..], n), records, b[p..], n - i, doc.value.0, b[doc.value.1..]);
      records, p := records + [doc.value.0], doc.value.1;
    }
    assert records + [] == records;
    return Some((records, p));
  }

  /**
   * `load_inverted_index`: a file that cannot be opened gives the empty
   * table; otherwise the table is the decoding of the file's bytes, and a
   * file cut short or holding a negative length fails. A count of zero or
   * less reads no record.
   */
  method LoadInvertedIndex(file: Option<seq<Byte>>) returns (table: Option<seq<TermRecord>>)
    ensures file.None? ==> table == Some([])
    ensures file.Some? ==> table == DecodeInverted(file.value)
  {
    if file.None? {
      return Some([]);
    }
    var b := file.value;
    if |b| < 4 {
      return None;
    }
    var numTerms := DecodeInt32(b[..4]);
    if numTerms <= 0 {
      return Some([]);
    }
    var r := ReadTermsAt(b, 4, numTerms);
    if r.None? {
      return None;
    }
    return Some(r.value.0);
  }

  /** `load_forward_index`, in the same way. */
  method LoadForwardIndex(file: Option<seq<Byte>>) returns (docs: Option<seq<DocRecord>>)
    ensures file.None? ==> docs == Some([])
    ensures file.Some? ==> docs == DecodeForward(file.value)
  {
    if file.None? {
      return Some([]);
    }
    var b := file.value;
    if |b| < 4 {
      return None;
    }
    var numDocs := DecodeInt32(b[..4]);
    if numDocs <= 0 {
      return Some([]);
    }
    var r := ReadDocsAt(b, 4, numDocs);
    if r.None? {
      return None;
    }
    return Some(r.value.0);
  }
}

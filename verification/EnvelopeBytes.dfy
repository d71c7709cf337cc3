/** The envelope's bytes: the layout of what is written, the exact set of what is accepted, and the two standards it
    rests on, CBOR heads (section 3 of RFC 8949) and UTF-8 (RFC 3629). */
module EnvelopeBytes {
  import opened Envelope
  import opened Keys
  import opened Options
  import opened Pages

  lemma ValueSnoc(s: Bytes, b: Byte)
    ensures Value(s + [b]) == 256 * Value(s) + b as nat
  {
    assert (s + [b])[..|s|] == s;
  }

  /** Numbers are written most significant byte first. */
  lemma NetworkOrder(a: Byte, b: Byte, c: Byte, d: Byte)
    ensures Value([a]) == a as nat && Value([a, b]) == 0x100 * a as nat + b as nat
    ensures Value([a, b, c, d]) == 0x100_0000 * a as nat + 0x1_0000 * b as nat + 0x100 * c as nat + d as nat
  {
    ValueSnoc([], a);
    ValueSnoc([a], b);
    ValueSnoc([a, b], c);
    ValueSnoc([a, b, c], d);
    assert [] + [a] == [a] && [a] + [b] == [a, b] && [a, b] + [c] == [a, b, c];
    assert [a, b, c] + [d] == [a, b, c, d];
  }

  lemma {:induction false} ValueBound(s: Bytes)
    ensures Value(s) < Pow256(|s|)
  {
    if s == [] {
    } else {
      ValueBound(s[..|s| - 1]);
    }
  }

  /** The byte that opens an item of this major type whose argument takes `w` more bytes. */
  function Opening(major: nat, w: nat): (r: nat) {
    32 * major + (if w == 1 then 24 else if w == 2 then 25 else if w == 4 then 26 else 27)
  }

  /** `s` is a head of this major type and argument: in one byte, or with the argument in one, two, four or eight. */
  ghost predicate IsHead(s: Bytes, major: nat, arg: nat) {
    || (s != [] && |s| == 1 && arg < 24 && s[0] as nat == 32 * major + arg)
    || (|s| in {2, 3, 5, 9} && s[0] as nat == Opening(major, |s| - 1) && Value(s[1..]) == arg)
  }

  lemma HeadIsParsed(head: Bytes, major: nat, arg: nat, rest: Bytes)
    requires major < 8 && IsHead(head, major, arg)
    ensures ParseHead(head + rest) == Some(Head(major, arg, rest))
  {
    if |head| == 1 {
      assert (head + rest)[1..] == rest;
    } else {
      assert head == [head[0]] + head[1..];
      ParseWide(head[0], |head| - 1, head[1..], rest);
    }
  }

  lemma ParsedIsHead(s: Bytes, h: Head) returns (head: Bytes)
    requires ParseHead(s) == Some(h)
    ensures IsHead(head, h.major, h.arg) && s == head + h.rest
  {
    head := s[..|s| - |h.rest|];
    assert |head| > 1 ==> s[1..|head|] == head[1..];
  }

  /** The parser reads exactly the heads of RFC 8949 with a definite argument, in every width. */
  lemma ParseHeadIff(s: Bytes, major: nat, arg: nat, rest: Bytes)
    requires major < 8
    ensures ParseHead(s) == Some(Head(major, arg, rest)) <==>
            exists head :: IsHead(head, major, arg) && s == head + rest
  {
    if ParseHead(s) == Some(Head(major, arg, rest)) {
      var head := ParsedIsHead(s, Head(major, arg, rest));
    }
    if exists head :: IsHead(head, major, arg) && s == head + rest {
      var head :| IsHead(head, major, arg) && s == head + rest;
      HeadIsParsed(head, major, arg, rest);
    }
  }

  /** The encoder writes a head, and no head for the same type and argument is shorter. */
  lemma ShortestHead(major: nat, n: nat, head: Bytes)
    requires major < 8 && n < U64_LIMIT
    ensures IsHead(EncodeHead(major, n), major, n)
    ensures IsHead(head, major, n) ==> |EncodeHead(major, n)| <= |head|
  {
    if n >= 24 {
      WidthFits(n);
      ValueOfBigEndian(n, Width(n));
      assert EncodeHead(major, n)[1..] == BigEndian(n, Width(n));
    }
    if IsHead(head, major, n) && |head| > 1 {
      ValueBound(head[1..]);
      assert Pow256(1) == 0x100 && Pow256(2) == 0x1_0000 && Pow256(4) == 0x1_0000_0000;
    }
  }

  /** The header: `TLMD`, version 1 in two bytes. */
  const HEADER: Bytes := [0x54, 0x4C, 0x4D, 0x44, 0x00, 0x01]

  const SEQ: Bytes := [0x73, 0x65, 0x71]
  const EPOCH: Bytes := [0x65, 0x70, 0x6F, 0x63, 0x68]
  const WRITER_ID: Bytes := [0x77, 0x72, 0x69, 0x74, 0x65, 0x72, 0x5F, 0x69, 0x64]
  const PREV_CHECKSUM: Bytes := [0x70, 0x72, 0x65, 0x76, 0x5F, 0x63, 0x68, 0x65, 0x63, 0x6B, 0x73, 0x75, 0x6D]
  const END_PAGE_COUNT: Bytes := [0x65, 0x6E, 0x64, 0x5F, 0x70, 0x61, 0x67, 0x65, 0x5F, 0x63, 0x6F, 0x75, 0x6E, 0x74]
  const LTX_PAYLOAD: Bytes := [0x6C, 0x74, 0x78, 0x5F, 0x70, 0x61, 0x79, 0x6C, 0x6F, 0x61, 0x64]

  lemma ShortNames()
    ensures Ascii("seq") == SEQ && Ascii("epoch") == EPOCH && Ascii("writer_id") == WRITER_ID
  {
  }

  lemma LongNames()
    ensures Ascii("prev_checksum") == PREV_CHECKSUM && Ascii("end_page_count") == END_PAGE_COUNT
    ensures Ascii("ltx_payload") == LTX_PAYLOAD
  {
  }

  lemma NamesAre()
    ensures Names() == [SEQ, EPOCH, WRITER_ID, PREV_CHECKSUM, END_PAGE_COUNT, LTX_PAYLOAD]
  {
    ShortNames();
    LongNames();
  }

  /** A short field name behind its one-byte head, and the item that follows it. */
  function Field(name: Bytes, item: Bytes): (r: Bytes)
    requires |name| < 24
  {
    [(0x60 + |name|) as Byte] + name + item
  }

  lemma EntryBytes(name: Bytes, item: Item)
    requires |name| < 24 && Encodable(item)
    ensures Encodable(Text(name)) && EncodeEntry(Entry(name, item)) == Field(name, EncodeItem(item))
  {
  }

  function Concat(parts: seq<Bytes>): (r: Bytes) {
    if parts == [] then [] else parts[0] + Concat(parts[1..])
  }

  lemma {:induction false} EntriesConcat(entries: seq<Entry>, parts: seq<Bytes>)
    requires AllEncodable(entries) && |parts| == |entries|
    requires forall i :: 0 <= i < |entries| ==>
               Encodable(Text(entries[i].name)) && Encodable(entries[i].item) && parts[i] == EncodeEntry(entries[i])
    ensures EncodeEntries(entries) == Concat(parts)
  {
    if entries == [] {
    } else {
      EntriesConcat(entries[1..], parts[1..]);
    }
  }

  lemma VersionBytes()
    ensures MAGIC + BigEndian(VERSION, 2) == HEADER && EncodeHead(5, 6) == [0xA6]
  {
    assert BigEndian(0, 0) == [];
    assert BigEndian(0, 1) == [0];
    assert BigEndian(1, 2) == [0, 1];
  }

  /** The six fields in declaration order: numbers as unsigned integers, the writer as text, checksum and payload as
      byte strings. */
  function SixFields(d: Payload): (r: seq<Bytes>) {
    [Field(SEQ, EncodeHead(0, d.seqNo)), Field(EPOCH, EncodeHead(0, d.epoch)),
     Field(WRITER_ID, EncodeHead(3, |d.writerId|) + d.writerId),
     Field(PREV_CHECKSUM, EncodeHead(2, |d.prevChecksum|) + d.prevChecksum),
     Field(END_PAGE_COUNT, EncodeHead(0, d.endPageCount)),
     Field(LTX_PAYLOAD, EncodeHead(2, |d.ltxPayload|) + d.ltxPayload)]
  }

  lemma FieldsAre(d: Payload, f: seq<Entry>)
    requires f == Fields(d, [SEQ, EPOCH, WRITER_ID, PREV_CHECKSUM, END_PAGE_COUNT, LTX_PAYLOAD]) && AllEncodable(f)
    ensures EncodeEntries(f) == Concat(SixFields(d))
  {
    forall i | 0 <= i < |f|
      ensures Encodable(Text(f[i].name)) && Encodable(f[i].item) && SixFields(d)[i] == EncodeEntry(f[i])
    {
      assert f[i] in f;
      EntryBytes(f[i].name, f[i].item);
    }
    EntriesConcat(f, SixFields(d));
  }

  lemma BodyLayout(d: Payload)
    ensures Body(d) == EncodeHead(5, 6) + Concat(SixFields(d))
  {
    NamesAre();
    FieldsEncodable(d);
    FieldsAre(d, Fields(d, Names()));
  }

  /** Every byte of an envelope: the header, a map of six, and the fields. */
  lemma EnvelopeLayout(d: Payload)
    ensures Encoded(d) == HEADER + ([0xA6] + Concat(SixFields(d)))
  {
    BodyLayout(d);
    VersionBytes();
  }

  /** The field occurs once, with this value. */
  ghost predicate OnlyAt(entries: seq<Entry>, name: Bytes, item: Item, i: nat) {
    && i < |entries| && entries[i] == Entry(name, item)
    && forall j :: 0 <= j < |entries| && j != i ==> entries[j].name != name
  }

  ghost predicate Only(entries: seq<Entry>, name: Bytes, item: Item) {
    exists i: nat :: OnlyAt(entries, name, item, i)
  }

  lemma OnlyRest(entries: seq<Entry>, name: Bytes, item: Item)
    requires entries != [] && entries[0].name != name
    ensures Only(entries, name, item) <==> Only(entries[1..], name, item)
  {
    if Only(entries, name, item) {
      var i: nat :| OnlyAt(entries, name, item, i);
      assert OnlyAt(entries[1..], name, item, i - 1);
    }
    if Only(entries[1..], name, item) {
      var i: nat :| OnlyAt(entries[1..], name, item, i);
      assert forall j :: 0 < j < |entries| ==> entries[j] == entries[1..][j - 1];
      assert OnlyAt(entries, name, item, i + 1);
    }
  }

  /** A field has a value if and only if it occurs exactly once. */
  lemma {:induction false} FieldIff(entries: seq<Entry>, name: Bytes, item: Item)
    ensures FieldOf(entries, name) == Some(item) <==> Only(entries, name, item)
  {
    if entries == [] {
    } else if entries[0].name != name {
      FieldIff(entries[1..], name, item);
      OnlyRest(entries, name, item);
    } else {
      FirstOnly(entries, name, item);
    }
  }

  lemma FirstOnly(entries: seq<Entry>, name: Bytes, item: Item)
    requires entries != [] && entries[0].name == name
    ensures Only(entries, name, item) <==>
            entries[0].item == item && forall e :: e in entries[1..] ==> e.name != name
  {
    if entries[0].item == item && forall e :: e in entries[1..] ==> e.name != name {
      assert forall j :: 0 < j < |entries| ==> entries[j] in entries[1..];
      assert OnlyAt(entries, name, item, 0);
    }
    if Only(entries, name, item) {
      var i: nat :| OnlyAt(entries, name, item, i);
      forall e | e in entries[1..]
        ensures e.name != name
      {
        var j :| 0 <= j < |entries[1..]| && entries[1..][j] == e;
        assert e == entries[j + 1];
      }
    }
  }

  /** Each of the six fields occurs exactly once, with the payload's value in the right type; others do not matter. */
  ghost predicate Holds(entries: seq<Entry>, d: Delta) {
    && Only(entries, SEQ, Number(d.seqNo)) && Only(entries, EPOCH, Number(d.epoch))
    && Only(entries, WRITER_ID, Text(d.writerId)) && ValidUtf8(d.writerId)
    && Only(entries, PREV_CHECKSUM, Blob(d.prevChecksum)) && Only(entries, END_PAGE_COUNT, Number(d.endPageCount))
    && Only(entries, LTX_PAYLOAD, Blob(d.ltxPayload))
  }

  lemma AssembleIff(entries: seq<Entry>, d: Delta, names: seq<Bytes>)
    requires names == [SEQ, EPOCH, WRITER_ID, PREV_CHECKSUM, END_PAGE_COUNT, LTX_PAYLOAD]
    ensures Assemble(entries, names) == Some(d) <==> Holds(entries, d)
  {
    FieldIff(entries, SEQ, Number(d.seqNo));
    FieldIff(entries, EPOCH, Number(d.epoch));
    FieldIff(entries, WRITER_ID, Text(d.writerId));
    FieldIff(entries, PREV_CHECKSUM, Blob(d.prevChecksum));
    FieldIff(entries, END_PAGE_COUNT, Number(d.endPageCount));
    FieldIff(entries, LTX_PAYLOAD, Blob(d.ltxPayload));
  }

  /** The bytes behind the header are a map with these entries. */
  ghost predicate MapOf(body: Bytes, entries: seq<Entry>) {
    exists head: Bytes, n: nat, rest: Bytes ::
      IsHead(head, 5, n) && body == head + rest && ParseEntries(rest, n) == Some(entries)
  }

  lemma MapIff(body: Bytes, entries: seq<Entry>)
    ensures MapOf(body, entries) <==>
            var h := ParseHead(body);
            h.Some? && h.value.major == 5 && ParseEntries(h.value.rest, h.value.arg) == Some(entries)
  {
    var h := ParseHead(body);
    if h.Some? && h.value.major == 5 {
      ParseHeadIff(body, 5, h.value.arg, h.value.rest);
    }
    if MapOf(body, entries) {
      var head: Bytes, n: nat, rest: Bytes :|
        IsHead(head, 5, n) && body == head + rest && ParseEntries(rest, n) == Some(entries);
      ParseHeadIff(body, 5, n, rest);
    }
  }

  /** What the decoder accepts, exactly: the header, and a map in which each field occurs once in the right type. */
  lemma DecodeIff(s: Bytes, d: Delta)
    ensures Decode(s) == Ok(d) <==>
            |s| >= 6 && s[..6] == HEADER && exists entries :: MapOf(s[6..], entries) && Holds(entries, d)
  {
    NamesAre();
    HeaderIff(s);
    if |s| >= 6 && s[..6] == HEADER {
      BodyIff(s[6..], d);
    }
  }

  lemma HeaderIff(s: Bytes)
    ensures |s| >= 6 && s[..6] == HEADER <==> |s| >= 6 && s[..4] == MAGIC && Value(s[4..6]) == VERSION
  {
    if |s| >= 6 {
      TwoByteValue(s[4..6]);
      assert s[..6] == s[..4] + s[4..6] && HEADER == MAGIC + [0, 1];
      assert s[..6][..4] == s[..4] && HEADER[..4] == MAGIC;
    }
  }

  lemma BodyIff(body: Bytes, d: Delta)
    requires Names() == [SEQ, EPOCH, WRITER_ID, PREV_CHECKSUM, END_PAGE_COUNT, LTX_PAYLOAD]
    ensures ParseBody(body) == Some(d) <==> exists entries :: MapOf(body, entries) && Holds(entries, d)
  {
    var h := ParseHead(body);
    if h.Some? && h.value.major == 5 && ParseEntries(h.value.rest, h.value.arg).Some? {
      var entries := ParseEntries(h.value.rest, h.value.arg).value;
      MapIff(body, entries);
      AssembleIff(entries, d, Names());
    }
    forall entries | MapOf(body, entries)
      ensures h.Some? && h.value.major == 5 && ParseEntries(h.value.rest, h.value.arg) == Some(entries)
    {
      MapIff(body, entries);
    }
  }
}

/** The TLMD delta envelope: four magic bytes, a big-endian version and a CBOR map (RFC 8949, sections 3, 3.1 and 4.1),
    and the chain that delta envelopes form. */
module Envelope {
  import opened Keys
  import opened Options
  import opened Pages

  type Bytes = seq<Byte>

  /** `n` in `w` bytes, most significant first. */
  function BigEndian(n: nat, w: nat): (r: Bytes)
    ensures |r| == w
  {
    if w == 0 then [] else BigEndian(n / 256, w - 1) + [(n % 256) as Byte]
  }

  function Value(s: Bytes): (r: nat) {
    if s == [] then 0 else 256 * Value(s[..|s| - 1]) + s[|s| - 1] as nat
  }

  function Pow256(w: nat): (r: nat) {
    if w == 0 then 1 else 256 * Pow256(w - 1)
  }

  lemma {:induction false} ValueOfBigEndian(n: nat, w: nat)
    requires n < Pow256(w)
    ensures Value(BigEndian(n, w)) == n
  {
    if w == 0 {
    } else {
      ValueOfBigEndian(n / 256, w - 1);
      assert BigEndian(n, w)[..w - 1] == BigEndian(n / 256, w - 1);
    }
  }

  /** The bytes an argument of at least 24 takes, and the marker that announces them. */
  function Width(n: nat): (r: nat)
    requires n < U64_LIMIT
  {
    if n < 0x100 then 1 else if n < 0x1_0000 then 2 else if n < 0x1_0000_0000 then 4 else 8
  }

  function Marker(w: nat): (r: nat) {
    if w == 1 then 24 else if w == 2 then 25 else if w == 4 then 26 else 27
  }

  lemma WidthFits(n: nat)
    requires n < U64_LIMIT
    ensures n < Pow256(Width(n))
  {
    assert Pow256(1) == 0x100 && Pow256(2) == 0x1_0000 && Pow256(4) == 0x1_0000_0000;
    assert Pow256(6) == 0x1_0000_0000_0000 && Pow256(8) == U64_LIMIT;
  }

  /** The head of a data item: major type and argument in the shortest form. */
  function EncodeHead(major: nat, n: nat): (r: Bytes)
    requires major < 8 && n < U64_LIMIT
    ensures |r| >= 1
  {
    if n < 24 then [(32 * major + n) as Byte]
    else [(32 * major + Marker(Width(n))) as Byte] + BigEndian(n, Width(n))
  }

  datatype Head = Head(major: nat, arg: nat, rest: Bytes)

  /** Reads a head of any width; indefinite lengths and reserved values are refused. */
  function ParseHead(s: Bytes): (r: Option<Head>)
    ensures r.Some? ==> |r.value.rest| < |s|
  {
    if s == [] then None
    else
      var major, info := s[0] as nat / 32, s[0] as nat % 32;
      if info < 24 then Some(Head(major, info, s[1..]))
      else if info > 27 then None
      else
        var w := if info == 24 then 1 else if info == 25 then 2 else if info == 26 then 4 else 8;
        if |s| < 1 + w then None else Some(Head(major, Value(s[1..1 + w]), s[1 + w..]))
  }

  lemma FirstByte(major: nat, info: nat)
    requires major < 8 && info < 32
    ensures var b := (32 * major + info) as Byte; b as nat / 32 == major && b as nat % 32 == info
  {
  }

  /** A marker, the argument's bytes and a rest are read back as such. */
  lemma ParseWide(first: Byte, w: nat, arg: Bytes, rest: Bytes)
    requires w in {1, 2, 4, 8} && |arg| == w && first as nat % 32 == Marker(w)
    ensures ParseHead([first] + arg + rest) == Some(Head(first as nat / 32, Value(arg), rest))
  {
    var s := [first] + arg + rest;
    assert s[1..1 + w] == arg && s[1 + w..] == rest;
  }

  lemma HeadRoundTrip(major: nat, n: nat, rest: Bytes)
    requires major < 8 && n < U64_LIMIT
    ensures ParseHead(EncodeHead(major, n) + rest) == Some(Head(major, n, rest))
  {
    if n < 24 {
      assert (EncodeHead(major, n) + rest)[1..] == rest;
    } else {
      WidthFits(n);
      ValueOfBigEndian(n, Width(n));
      FirstByte(major, Marker(Width(n)));
      ParseWide((32 * major + Marker(Width(n))) as Byte, Width(n), BigEndian(n, Width(n)), rest);
    }
  }

  /** The values a payload uses; anything else in a map is skipped. */
  datatype Item = Number(n: nat) | Text(text: Bytes) | Blob(bytes: Bytes) | Other

  datatype Entry = Entry(name: Bytes, item: Item)

  ghost predicate Encodable(item: Item) {
    match item
    case Number(n) => n < U64_LIMIT
    case Text(t) => |t| < U64_LIMIT
    case Blob(b) => |b| < U64_LIMIT
    case Other => false
  }

  function EncodeItem(item: Item): (r: Bytes)
    requires Encodable(item)
  {
    match item
    case Number(n) => EncodeHead(0, n)
    case Blob(b) => EncodeHead(2, |b|) + b
    case Text(t) => EncodeHead(3, |t|) + t
  }

  /** Skips `n` data items of definite length, nested ones included. */
  function SkipItems(s: Bytes, n: nat): (r: Option<Bytes>)
    ensures r.Some? ==> |r.value| <= |s|
    decreases |s|, n
  {
    if n == 0 then Some(s)
    else
      var h := ParseHead(s);
      if h.None? then None
      else
        var Head(major, arg, rest) := h.value;
        if major == 2 || major == 3 then if |rest| < arg then None else SkipItems(rest[arg..], n - 1)
        else
          var inner := if major == 4 then arg else if major == 5 then 2 * arg else if major == 6 then 1 else 0;
          SkipItems(rest, n - 1 + inner)
  }

  function ParseItem(s: Bytes): (r: Option<(Item, Bytes)>)
    ensures r.Some? ==> |r.value.1| <= |s|
  {
    var h := ParseHead(s);
    if h.None? then None
    else
      var Head(major, arg, rest) := h.value;
      if major == 0 then Some((Number(arg), rest))
      else if major == 2 || major == 3 then
        if |rest| < arg then None
        else Some((if major == 2 then Blob(rest[..arg]) else Text(rest[..arg]), rest[arg..]))
      else
        var skipped := SkipItems(s, 1);
        if skipped.Some? then Some((Other, skipped.value)) else None
  }

  lemma BytesRoundTrip(major: nat, b: Bytes, rest: Bytes)
    requires major == 2 || major == 3
    requires |b| < U64_LIMIT
    ensures ParseItem(EncodeHead(major, |b|) + b + rest) == Some((if major == 2 then Blob(b) else Text(b), rest))
  {
    HeadRoundTrip(major, |b|, b + rest);
    assert EncodeHead(major, |b|) + b + rest == EncodeHead(major, |b|) + (b + rest);
  }

  lemma ItemRoundTrip(item: Item, rest: Bytes)
    requires Encodable(item)
    ensures ParseItem(EncodeItem(item) + rest) == Some((item, rest))
  {
    match item
    case Number(n) => HeadRoundTrip(0, n, rest);
    case Blob(b) => BytesRoundTrip(2, b, rest);
    case Text(t) => BytesRoundTrip(3, t, rest);
  }

  ghost predicate AllEncodable(entries: seq<Entry>) {
    forall e :: e in entries ==> Encodable(Text(e.name)) && Encodable(e.item)
  }

  function EncodeEntry(e: Entry): (r: Bytes)
    requires Encodable(Text(e.name)) && Encodable(e.item)
  {
    EncodeItem(Text(e.name)) + EncodeItem(e.item)
  }

  function EncodeEntries(entries: seq<Entry>): (r: Bytes)
    requires AllEncodable(entries)
  {
    if entries == [] then [] else EncodeEntry(entries[0]) + EncodeEntries(entries[1..])
  }

  /** A name, which must be text, and its value. */
  function ParseEntry(s: Bytes): (r: Option<(Entry, Bytes)>) {
    var name := ParseItem(s);
    if name.None? || !name.value.0.Text? then None
    else
      var item := ParseItem(name.value.1);
      if item.None? then None else Some((Entry(name.value.0.text, item.value.0), item.value.1))
  }

  function ParseEntries(s: Bytes, n: nat): (r: Option<seq<Entry>>)
    decreases n
  {
    if n == 0 then Some([])
    else
      var e := ParseEntry(s);
      if e.None? then None
      else
        var rest := ParseEntries(e.value.1, n - 1);
        if rest.None? then None else Some([e.value.0] + rest.value)
  }

  lemma EntryRoundTrip(e: Entry, rest: Bytes)
    requires Encodable(Text(e.name)) && Encodable(e.item)
    ensures ParseEntry(EncodeEntry(e) + rest) == Some((e, rest))
  {
    var name, item := EncodeItem(Text(e.name)), EncodeItem(e.item);
    ItemRoundTrip(Text(e.name), item + rest);
    assert name + item + rest == name + (item + rest);
    ItemRoundTrip(e.item, rest);
  }

  lemma ParseFirst(s: Bytes, n: nat, e: Entry, rest: Bytes)
    requires ParseEntry(s) == Some((e, rest)) && ParseEntries(rest, n).Some?
    ensures ParseEntries(s, n + 1) == Some([e] + ParseEntries(rest, n).value)
  {
  }

  lemma Regroup(a: Bytes, b: Bytes, c: Bytes)
    ensures a + b + c == a + (b + c)
  {
  }

  lemma {:induction false} EntriesRoundTrip(entries: seq<Entry>, junk: Bytes)
    requires AllEncodable(entries)
    ensures ParseEntries(EncodeEntries(entries) + junk, |entries|) == Some(entries)
  {
    if entries == [] {
    } else {
      var e, tail := entries[0], entries[1..];
      var back := EncodeEntries(tail) + junk;
      EntriesRoundTrip(tail, junk);
      EntryRoundTrip(e, back);
      ParseFirst(EncodeEntry(e) + back, |tail|, e, back);
      Regroup(EncodeEntry(e), EncodeEntries(tail), junk);
      assert [e] + tail == entries;
    }
  }

  predicate Continues(b: Byte) { 0x80 <= b <= 0xBF }

  /** Well-formed UTF-8 (section 4 of RFC 3629). */
  predicate ValidUtf8(s: Bytes) {
    if s == [] then true
    else if s[0] < 0x80 then ValidUtf8(s[1..])
    else if |s| >= 2 && 0xC2 <= s[0] <= 0xDF then Continues(s[1]) && ValidUtf8(s[2..])
    else if |s| >= 3 && 0xE0 <= s[0] <= 0xEF then
      && Continues(s[1]) && Continues(s[2]) && (s[0] == 0xE0 ==> s[1] >= 0xA0) && (s[0] == 0xED ==> s[1] < 0xA0)
      && ValidUtf8(s[3..])
    else if |s| >= 4 && 0xF0 <= s[0] <= 0xF4 then
      && Continues(s[1]) && Continues(s[2]) && Continues(s[3])
      && (s[0] == 0xF0 ==> s[1] >= 0x90) && (s[0] == 0xF4 ==> s[1] < 0x90) && ValidUtf8(s[4..])
    else false
  }

  /** A delta; `writerId` is given by its UTF-8 bytes. */
  datatype Delta = Delta(seqNo: nat, epoch: nat, writerId: Bytes, prevChecksum: Bytes, endPageCount: nat,
                         ltxPayload: Bytes)

  /** 64-bit numbers, a string, and lengths that fit in memory. */
  predicate Representable(d: Delta) {
    && d.seqNo < U64_LIMIT && d.epoch < U64_LIMIT && d.endPageCount < U64_LIMIT
    && ValidUtf8(d.writerId) && |d.writerId| < U64_LIMIT
    && |d.prevChecksum| < U64_LIMIT && |d.ltxPayload| < U64_LIMIT
  }

  type Payload = d: Delta | Representable(d) witness Delta(0, 0, [], [], 0, [])

  predicate IsAscii(s: string) {
    forall i :: 0 <= i < |s| ==> s[i] < 128 as char
  }

  function Ascii(s: string): (r: Bytes)
    requires IsAscii(s)
    ensures |r| == |s|
  {
    seq(|s|, i requires 0 <= i < |s| => s[i] as int as Byte)
  }

  /** The field names in declaration order. */
  function Names(): (r: seq<Bytes>) {
    [Ascii("seq"), Ascii("epoch"), Ascii("writer_id"), Ascii("prev_checksum"), Ascii("end_page_count"),
     Ascii("ltx_payload")]
  }

  function Fields(d: Delta, names: seq<Bytes>): (r: seq<Entry>)
    requires |names| == 6
  {
    [Entry(names[0], Number(d.seqNo)), Entry(names[1], Number(d.epoch)), Entry(names[2], Text(d.writerId)),
     Entry(names[3], Blob(d.prevChecksum)), Entry(names[4], Number(d.endPageCount)),
     Entry(names[5], Blob(d.ltxPayload))]
  }

  /** The one value of a field: missing and repeated fields are refused, unknown ones are ignored. */
  function FieldOf(entries: seq<Entry>, name: Bytes): (r: Option<Item>) {
    if entries == [] then None
    else
      var rest := FieldOf(entries[1..], name);
      if entries[0].name != name then rest
      else if forall e :: e in entries[1..] ==> e.name != name then Some(entries[0].item)
      else None
  }

  function NumberOf(o: Option<Item>): (r: Option<nat>) {
    if o.Some? && o.value.Number? then Some(o.value.n) else None
  }

  function BlobOf(o: Option<Item>): (r: Option<Bytes>) {
    if o.Some? && o.value.Blob? then Some(o.value.bytes) else None
  }

  function StringOf(o: Option<Item>): (r: Option<Bytes>) {
    if o.Some? && o.value.Text? && ValidUtf8(o.value.text) then Some(o.value.text) else None
  }

  function Assemble(entries: seq<Entry>, names: seq<Bytes>): (r: Option<Delta>)
    requires |names| == 6
  {
    var seqNo, epoch := NumberOf(FieldOf(entries, names[0])), NumberOf(FieldOf(entries, names[1]));
    var writer, prev := StringOf(FieldOf(entries, names[2])), BlobOf(FieldOf(entries, names[3]));
    var pages, payload := NumberOf(FieldOf(entries, names[4])), BlobOf(FieldOf(entries, names[5]));
    if seqNo.Some? && epoch.Some? && writer.Some? && prev.Some? && pages.Some? && payload.Some?
    then Some(Delta(seqNo.value, epoch.value, writer.value, prev.value, pages.value, payload.value))
    else None
  }

  const MAGIC: Bytes := [0x54, 0x4C, 0x4D, 0x44]

  const VERSION: nat := 1

  datatype DecodeError =
    | Truncated(length: nat)
    | MagicMismatch(got: Bytes)
    | UnsupportedVersion(found: nat, supported: nat)
    | BodyDecode

  datatype Decoded = Ok(delta: Delta) | Err(error: DecodeError)

  function Body(d: Payload): (r: Bytes) {
    FieldsEncodable(d);
    EncodeHead(5, 6) + EncodeEntries(Fields(d, Names()))
  }

  function Encoded(d: Payload): (r: Bytes) {
    MAGIC + BigEndian(VERSION, 2) + Body(d)
  }

  lemma FieldsEncodable(d: Payload)
    ensures AllEncodable(Fields(d, Names()))
  {
  }

  function ParseBody(s: Bytes): (r: Option<Delta>) {
    var h := ParseHead(s);
    if h.None? || h.value.major != 5 then None
    else
      var entries := ParseEntries(h.value.rest, h.value.arg);
      if entries.None? then None else Assemble(entries.value, Names())
  }

  function Decode(s: Bytes): (r: Decoded) {
    if |s| < |MAGIC| + 2 then Err(Truncated(|s|))
    else if s[..4] != MAGIC then Err(MagicMismatch(s[..4]))
    else if Value(s[4..6]) != VERSION then Err(UnsupportedVersion(Value(s[4..6]), VERSION))
    else
      var d := ParseBody(s[6..]);
      if d.Some? then Ok(d.value) else Err(BodyDecode)
  }

  /** The field names even differ in length. */
  ghost predicate NamesApart(entries: seq<Entry>) {
    forall j, k :: 0 <= j < k < |entries| ==> |entries[j].name| != |entries[k].name|
  }

  lemma FieldNamesApart(d: Delta, names: seq<Bytes>)
    requires names == Names()
    ensures NamesApart(Fields(d, names))
  {
  }

  /** A field is found if its name occurs only once. */
  lemma {:induction false} FieldAt(entries: seq<Entry>, i: nat)
    requires i < |entries| && NamesApart(entries)
    ensures FieldOf(entries, entries[i].name) == Some(entries[i].item)
  {
    if i == 0 {
      forall e | e in entries[1..]
        ensures e.name != entries[0].name
      {
        var k :| 0 <= k < |entries[1..]| && entries[1..][k] == e;
        assert e == entries[k + 1];
      }
    } else {
      FieldAt(entries[1..], i - 1);
    }
  }

  lemma AssembleFields(d: Payload, names: seq<Bytes>, f: seq<Entry>)
    requires |names| == |f| == 6 && NamesApart(f)
    requires f[0] == Entry(names[0], Number(d.seqNo)) && f[1] == Entry(names[1], Number(d.epoch))
    requires f[2] == Entry(names[2], Text(d.writerId)) && f[3] == Entry(names[3], Blob(d.prevChecksum))
    requires f[4] == Entry(names[4], Number(d.endPageCount)) && f[5] == Entry(names[5], Blob(d.ltxPayload))
    ensures Assemble(f, names) == Some(d)
  {
    FieldAt(f, 0);
    FieldAt(f, 1);
    FieldAt(f, 2);
    FieldAt(f, 3);
    FieldAt(f, 4);
    FieldAt(f, 5);
  }

  lemma BodyRoundTrip(d: Payload, junk: Bytes)
    ensures ParseBody(Body(d) + junk) == Some(d)
  {
    FieldsEncodable(d);
    var entries := EncodeEntries(Fields(d, Names()));
    HeadRoundTrip(5, 6, entries + junk);
    assert Body(d) + junk == EncodeHead(5, 6) + (entries + junk);
    EntriesRoundTrip(Fields(d, Names()), junk);
    FieldNamesApart(d, Names());
    AssembleFields(d, Names(), Fields(d, Names()));
  }

  lemma FrameParts(s: Bytes, head: Bytes, version: Bytes, body: Bytes)
    requires |head| == 4 && |version| == 2 && s == head + version + body
    ensures s[..4] == head && s[4..6] == version && s[6..] == body
  {
  }

  /** Behind the right magic bytes and version the body decides. */
  lemma DecodeBody(s: Bytes, version: Bytes, body: Bytes, d: Delta)
    requires |version| == 2 && Value(version) == VERSION && s == MAGIC + version + body
    requires ParseBody(body) == Some(d)
    ensures Decode(s) == Ok(d)
  {
    FrameParts(s, MAGIC, version, body);
  }

  /** Decoding inverts encoding, and bytes behind the envelope do not disturb it. */
  lemma EnvelopeRoundTrip(d: Payload, junk: Bytes)
    ensures Decode(Encoded(d) + junk) == Ok(d)
  {
    BodyRoundTrip(d, junk);
    assert Pow256(2) == 0x1_0000;
    ValueOfBigEndian(VERSION, 2);
    Regroup(MAGIC + BigEndian(VERSION, 2), Body(d), junk);
    DecodeBody(Encoded(d) + junk, BigEndian(VERSION, 2), Body(d) + junk, d);
  }

  lemma EncodedDecodes(d: Payload)
    ensures Decode(Encoded(d)) == Ok(d)
  {
    EnvelopeRoundTrip(d, []);
    assert Encoded(d) + [] == Encoded(d);
  }

  /** What the encoder appends to its buffer is read back by the decoder. */
  method Encode(d: Payload) returns (out: Bytes)
    ensures out == Encoded(d) && Decode(out) == Ok(d)
  {
    var body := Body(d);
    out := [];
    out := out + MAGIC;
    out := out + BigEndian(VERSION, 2);
    out := out + body;
    assert out == Encoded(d);
    EncodedDecodes(d);
  }

  /** No envelope is a prefix of another one; in particular encoding is injective. */
  lemma EnvelopePrefixFree(d: Payload, e: Payload)
    requires Encoded(d) <= Encoded(e)
    ensures d == e
  {
    var rest := Encoded(e)[|Encoded(d)|..];
    EnvelopeRoundTrip(d, rest);
    EnvelopeRoundTrip(e, []);
    assert Encoded(d) + rest == Encoded(e) + [];
  }

  lemma TwoByteValue(s: Bytes)
    requires |s| == 2
    ensures Value(s) == 256 * (s[0] as nat) + s[1] as nat
  {
    assert s[..1][..0] == [] && Value(s[..1]) == s[0] as nat;
  }

  /** What is refused before the body is looked at, and with which error and details. */
  lemma RejectedEarlyIff(s: Bytes)
    ensures Decode(s) == Err(Truncated(|s|)) <==> |s| < 6
    ensures |s| >= 6 ==> (Decode(s) == Err(MagicMismatch(s[..4])) <==> s[..4] != MAGIC)
    ensures |s| >= 6 && s[..4] == MAGIC ==>
              (Decode(s).Err? && Decode(s).error.UnsupportedVersion? <==> !(s[4] == 0 && s[5] == 1))
    ensures match Decode(s)
            case Ok(_) => |s| >= 6 && s[..4] == MAGIC && s[4] == 0 && s[5] == 1
            case Err(Truncated(n)) => n == |s| < 6
            case Err(MagicMismatch(got)) => |s| >= 6 && got == s[..4] != MAGIC
            case Err(UnsupportedVersion(found, supported)) =>
              |s| >= 6 && s[..4] == MAGIC && found == 256 * s[4] as nat + s[5] as nat != 1 == supported
            case Err(BodyDecode) => |s| >= 6 && s[..4] == MAGIC && s[4] == 0 && s[5] == 1
  {
    if |s| >= 6 {
      TwoByteValue(s[4..6]);
    }
  }

  /** Objects that point back: each holds the digest of the one before it, the first holds `anchor`. */
  ghost predicate Linked<D>(digest: D -> Bytes, prev: D -> Bytes, anchor: Bytes, chain: seq<D>) {
    chain == [] ||
    (var init, d := chain[..|chain| - 1], chain[|chain| - 1];
     Linked(digest, prev, anchor, init) && prev(d) == HeadDigest(digest, anchor, init))
  }

  ghost function HeadDigest<D>(digest: D -> Bytes, anchor: Bytes, chain: seq<D>): (r: Bytes) {
    if chain == [] then anchor else digest(chain[|chain| - 1])
  }

  ghost predicate Injective<D(!new)>(digest: D -> Bytes) {
    forall a, b :: digest(a) == digest(b) ==> a == b
  }

  /** The head determines the history: of two chains with the same head, the shorter is the end of the longer, which
      passes through the shorter one's anchor. */
  lemma {:induction false} HeadDetermines<D(!new)>(digest: D -> Bytes, prev: D -> Bytes, anchor: Bytes, chain: seq<D>,
                                                   anchor': Bytes, longer: seq<D>)
    requires Injective(digest) && |chain| <= |longer|
    requires Linked(digest, prev, anchor, chain) && Linked(digest, prev, anchor', longer)
    requires HeadDigest(digest, anchor, chain) == HeadDigest(digest, anchor', longer)
    ensures var n := |longer| - |chain|;
            chain == longer[n..] && anchor == HeadDigest(digest, anchor', longer[..n])
  {
    var n := |longer| - |chain|;
    if chain == [] {
      assert longer[..n] == longer;
    } else {
      var init, init' := chain[..|chain| - 1], longer[..|longer| - 1];
      HeadDetermines(digest, prev, anchor, init, anchor', init');
      assert init'[..n] == longer[..n] && longer[n..] == init'[n..] + [longer[|longer| - 1]];
    }
  }

  ghost predicate CollisionFree(checksum: Bytes -> Bytes) {
    forall a, b :: checksum(a) == checksum(b) ==> a == b
  }

  /** The checksum of a delta's envelope. */
  ghost function ChecksumOf(checksum: Bytes -> Bytes): (digest: Payload -> Bytes) {
    (d: Payload) => checksum(Encoded(d))
  }

  function PrevOf(d: Payload): (r: Bytes) { d.prevChecksum }

  lemma ChecksumInjective(checksum: Bytes -> Bytes)
    requires CollisionFree(checksum)
    ensures Injective(ChecksumOf(checksum))
  {
    forall a: Payload, b: Payload | ChecksumOf(checksum)(a) == ChecksumOf(checksum)(b)
      ensures a == b
    {
      EnvelopePrefixFree(a, b);
    }
  }

  /** Two delta chains with the same head checksum: the shorter one is the end of the longer one, so equally long ones
      from any anchors are the same deltas. Changing any field of an earlier delta changes the head. */
  lemma DeltaChainDetermined(checksum: Bytes -> Bytes, anchor: Bytes, deltas: seq<Payload>,
                             anchor': Bytes, longer: seq<Payload>)
    requires CollisionFree(checksum) && |deltas| <= |longer|
    requires Linked(ChecksumOf(checksum), PrevOf, anchor, deltas)
    requires Linked(ChecksumOf(checksum), PrevOf, anchor', longer)
    requires HeadDigest(ChecksumOf(checksum), anchor, deltas) == HeadDigest(ChecksumOf(checksum), anchor', longer)
    ensures deltas == longer[|longer| - |deltas|..]
    ensures |deltas| == |longer| ==> deltas == longer && anchor == anchor'
  {
    ChecksumInjective(checksum);
    HeadDetermines(ChecksumOf(checksum), PrevOf, anchor, deltas, anchor', longer);
    assert longer[0..] == longer && longer[..0] == [];
  }
}

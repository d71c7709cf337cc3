/** What the envelope's decoder skips and what it takes for text: well-formed CBOR items (section 3 of RFC 8949) and
    UTF-8 (section 3 of RFC 3629). */
module EnvelopeItems {
  import opened Envelope
  import opened Keys
  import opened Options
  import opened Pages

  /** The bytes are `n` whole data items and nothing else. */
  predicate Items(s: Bytes, n: nat) {
    SkipItems(s, n) == Some([])
  }

  lemma HeadInFront(a: Bytes, b: Bytes)
    requires ParseHead(a).Some?
    ensures ParseHead(a + b) == Some(ParseHead(a).value.(rest := ParseHead(a).value.rest + b))
  {
    assert (a + b)[0] == a[0] && (a + b)[1..] == a[1..] + b;
    var info := a[0] as nat % 32;
    if 24 <= info <= 27 {
      var w := if info == 24 then 1 else if info == 25 then 2 else if info == 26 then 4 else 8;
      assert (a + b)[1..1 + w] == a[1..1 + w] && (a + b)[1 + w..] == a[1 + w..] + b;
    }
  }

  /** What follows the bytes that belong to the head itself. */
  function Behind(h: Head): (r: Option<Bytes>) {
    if h.major == 2 || h.major == 3 then if |h.rest| < h.arg then None else Some(h.rest[h.arg..]) else Some(h.rest)
  }

  /** How many items the head announces. */
  function Announced(h: Head): (r: nat) {
    if h.major == 4 then h.arg else if h.major == 5 then 2 * h.arg else if h.major == 6 then 1 else 0
  }

  lemma SkipOne(s: Bytes, n: nat, h: Head, rest: Bytes, k: nat)
    requires n > 0 && ParseHead(s) == Some(h) && Behind(h) == Some(rest) && k == n - 1 + Announced(h)
    ensures SkipItems(s, n) == SkipItems(rest, k) && |rest| < |s|
  {
  }

  lemma SkipHead(s: Bytes, n: nat)
    requires n > 0 && SkipItems(s, n).Some?
    ensures ParseHead(s).Some? && Behind(ParseHead(s).value).Some?
  {
  }

  lemma BehindInFront(h: Head, b: Bytes)
    requires Behind(h).Some?
    ensures Behind(h.(rest := h.rest + b)) == Some(Behind(h).value + b)
    ensures Announced(h.(rest := h.rest + b)) == Announced(h)
  {
    if h.major == 2 || h.major == 3 {
      assert (h.rest + b)[h.arg..] == h.rest[h.arg..] + b;
    }
  }

  /** One step in front of other bytes is the same step. */
  lemma SkipStep(a: Bytes, n: nat, b: Bytes, m: nat) returns (rest: Bytes, k: nat)
    requires n > 0 && Items(a, n)
    ensures |rest| < |a| && SkipItems(rest, k) == SkipItems(a, n)
    ensures SkipItems(rest + b, k + m) == SkipItems(a + b, n + m)
  {
    SkipHead(a, n);
    HeadInFront(a, b);
    var h := ParseHead(a).value;
    BehindInFront(h, b);
    rest, k := Behind(h).value, n - 1 + Announced(h);
    SkipOne(a, n, h, rest, k);
    SkipOne(a + b, n + m, h.(rest := h.rest + b), rest + b, k + m);
  }

  /** Whole items are skipped whole: what follows them is left untouched. */
  lemma {:induction false} SkipWhole(a: Bytes, n: nat, b: Bytes, m: nat)
    requires Items(a, n)
    ensures SkipItems(a + b, n + m) == SkipItems(b, m)
    decreases |a|
  {
    if n == 0 {
      assert a + b == b;
    } else {
      var rest, k := SkipStep(a, n, b, m);
      SkipWhole(rest, k, b, m);
    }
  }

  lemma NestedItem(major: nat, k: nat, body: Bytes)
    requires k < U64_LIMIT && major in {4, 5, 6}
    ensures Items(EncodeHead(major, k) + body, 1) <==>
            Items(body, if major == 4 then k else if major == 5 then 2 * k else 1)
  {
    HeadRoundTrip(major, k, body);
    var h := Head(major, k, body);
    SkipOne(EncodeHead(major, k) + body, 1, h, body, Announced(h));
  }

  lemma PlainItem(major: nat, k: nat)
    requires k < U64_LIMIT && major in {0, 1, 7}
    ensures Items(EncodeHead(major, k), 1)
  {
    HeadRoundTrip(major, k, []);
    assert EncodeHead(major, k) + [] == EncodeHead(major, k);
  }

  lemma StringItem(major: nat, k: nat, body: Bytes)
    requires k < U64_LIMIT && major in {2, 3}
    ensures Items(EncodeHead(major, k) + body, 1) <==> |body| == k
  {
    HeadRoundTrip(major, k, body);
    if |body| >= k {
      SkipOne(EncodeHead(major, k) + body, 1, Head(major, k, body), body[k..], 0);
    }
  }

  /** A list of `k` items is one item, a map of `k` pairs, a tag with its item, and a string with its bytes too. */
  lemma ItemsNest(k: nat, body: Bytes)
    requires k < U64_LIMIT
    ensures Items(EncodeHead(4, k) + body, 1) <==> Items(body, k)
    ensures Items(EncodeHead(5, k) + body, 1) <==> Items(body, 2 * k)
    ensures Items(EncodeHead(6, k) + body, 1) <==> Items(body, 1)
    ensures Items(EncodeHead(0, k), 1) && Items(EncodeHead(1, k), 1) && Items(EncodeHead(7, k), 1)
    ensures Items(EncodeHead(2, k) + body, 1) <==> |body| == k
    ensures Items(EncodeHead(3, k) + body, 1) <==> |body| == k
  {
    NestedItem(4, k, body);
    NestedItem(5, k, body);
    NestedItem(6, k, body);
    PlainItem(0, k);
    PlainItem(1, k);
    PlainItem(7, k);
    StringItem(2, k, body);
    StringItem(3, k, body);
  }

  /** An item that a payload does not use is read as such, whatever it holds, and what follows it is left. */
  lemma OtherItem(a: Bytes, b: Bytes)
    requires Items(a, 1) && ParseHead(a).value.major !in {0, 2, 3}
    ensures ParseItem(a + b) == Some((Other, b))
  {
    SkipWhole(a, 1, b, 0);
    HeadInFront(a, b);
  }

  /** The code points that text may hold: all but the surrogates. */
  ghost predicate IsScalar(c: nat) {
    c < 0xD800 || 0xE000 <= c <= 0x10FFFF
  }

  /** A code point in one to four bytes. */
  ghost function Utf8Char(c: nat): (r: Bytes)
    requires IsScalar(c)
  {
    if c < 0x80 then [c as Byte]
    else if c < 0x800 then [(0xC0 + c / 64) as Byte, (0x80 + c % 64) as Byte]
    else if c < 0x1_0000 then
      [(0xE0 + c / 4096) as Byte, (0x80 + c / 64 % 64) as Byte, (0x80 + c % 64) as Byte]
    else
      [(0xF0 + c / 262144) as Byte, (0x80 + c / 4096 % 64) as Byte, (0x80 + c / 64 % 64) as Byte,
       (0x80 + c % 64) as Byte]
  }

  ghost predicate AllScalar(cs: seq<nat>) {
    forall c :: c in cs ==> IsScalar(c)
  }

  ghost function Utf8(cs: seq<nat>): (r: Bytes)
    requires AllScalar(cs)
  {
    if cs == [] then [] else Utf8Char(cs[0]) + Utf8(cs[1..])
  }

  lemma ShortCharIsValid(c: nat, s: Bytes)
    requires IsScalar(c) && c < 0x800 && Utf8Char(c) <= s
    ensures ValidUtf8(s) <==> ValidUtf8(s[|Utf8Char(c)|..])
  {
  }

  lemma MiddleCharIsValid(c: nat, s: Bytes)
    requires IsScalar(c) && 0x800 <= c < 0x1_0000 && Utf8Char(c) <= s
    ensures ValidUtf8(s) <==> ValidUtf8(s[3..])
  {
  }

  lemma LongCharIsValid(c: nat, s: Bytes)
    requires IsScalar(c) && 0x1_0000 <= c && Utf8Char(c) <= s
    ensures ValidUtf8(s) <==> ValidUtf8(s[4..])
  {
  }

  lemma CharIsValid(c: nat, rest: Bytes)
    requires IsScalar(c)
    ensures ValidUtf8(Utf8Char(c) + rest) <==> ValidUtf8(rest)
  {
    var s := Utf8Char(c) + rest;
    assert s[|Utf8Char(c)|..] == rest;
    if c < 0x800 {
      ShortCharIsValid(c, s);
    } else if c < 0x1_0000 {
      MiddleCharIsValid(c, s);
    } else {
      LongCharIsValid(c, s);
    }
  }

  lemma {:induction false} EncodedIsValid(cs: seq<nat>)
    requires AllScalar(cs)
    ensures ValidUtf8(Utf8(cs))
  {
    if cs == [] {
    } else {
      EncodedIsValid(cs[1..]);
      CharIsValid(cs[0], Utf8(cs[1..]));
    }
  }

  lemma TwoBytes(x: Byte, y: Byte)
    requires 0xC2 <= x <= 0xDF && Continues(y)
    ensures var c: nat := 64 * (x as nat - 0xC0) + (y as nat - 0x80); IsScalar(c) && Utf8Char(c) == [x, y]
  {
  }

  lemma ThreeBytes(x: Byte, y: Byte, z: Byte)
    requires 0xE0 <= x <= 0xEF && Continues(y) && Continues(z)
    requires (x == 0xE0 ==> y >= 0xA0) && (x == 0xED ==> y < 0xA0)
    ensures var c: nat := 4096 * (x as nat - 0xE0) + 64 * (y as nat - 0x80) + (z as nat - 0x80);
            IsScalar(c) && Utf8Char(c) == [x, y, z]
  {
  }

  lemma FourDigits(x: nat, y: nat, z: nat, w: nat)
    requires y < 64 && z < 64 && w < 64
    ensures var c := 262144 * x + 4096 * y + 64 * z + w;
            c / 262144 == x && c / 4096 % 64 == y && c / 64 % 64 == z && c % 64 == w
  {
    var c := 262144 * x + 4096 * y + 64 * z + w;
    assert c / 64 == 4096 * x + 64 * y + z && c / 4096 == 64 * x + y;
  }

  lemma FourBytes(x: Byte, y: Byte, z: Byte, w: Byte)
    requires 0xF0 <= x <= 0xF4 && Continues(y) && Continues(z) && Continues(w)
    requires (x == 0xF0 ==> y >= 0x90) && (x == 0xF4 ==> y < 0x90)
    ensures var c: nat := 262144 * (x as nat - 0xF0) + 4096 * (y as nat - 0x80) + 64 * (z as nat - 0x80)
                          + (w as nat - 0x80);
            IsScalar(c) && Utf8Char(c) == [x, y, z, w]
  {
    FourDigits(x as nat - 0xF0, y as nat - 0x80, z as nat - 0x80, w as nat - 0x80);
  }

  /** The first code point of valid text. */
  lemma FirstChar(s: Bytes) returns (c: nat, n: nat)
    requires s != [] && ValidUtf8(s)
    ensures IsScalar(c) && 1 <= n <= |s| && Utf8Char(c) == s[..n] && ValidUtf8(s[n..])
  {
    var x := s[0] as nat;
    if x < 0x80 {
      c, n := x, 1;
      assert s[..1] == [s[0]];
    } else if x < 0xE0 {
      TwoBytes(s[0], s[1]);
      c, n := 64 * (x - 0xC0) + (s[1] as nat - 0x80), 2;
      assert s[..2] == [s[0], s[1]];
    } else if x < 0xF0 {
      ThreeBytes(s[0], s[1], s[2]);
      c, n := 4096 * (x - 0xE0) + 64 * (s[1] as nat - 0x80) + (s[2] as nat - 0x80), 3;
      assert s[..3] == [s[0], s[1], s[2]];
    } else {
      FourBytes(s[0], s[1], s[2], s[3]);
      c := 262144 * (x - 0xF0) + 4096 * (s[1] as nat - 0x80) + 64 * (s[2] as nat - 0x80) + (s[3] as nat - 0x80);
      n := 4;
      assert s[..4] == [s[0], s[1], s[2], s[3]];
    }
  }

  lemma {:induction false} ValidIsEncoded(s: Bytes) returns (cs: seq<nat>)
    requires ValidUtf8(s)
    ensures AllScalar(cs) && s == Utf8(cs)
    decreases |s|
  {
    cs := [];
    if s == [] {
    } else {
      var c, n := FirstChar(s);
      var rest := ValidIsEncoded(s[n..]);
      cs := [c] + rest;
      assert cs[1..] == rest && s == s[..n] + s[n..];
    }
  }

  /** The decoder takes bytes for text if and only if they encode a sequence of code points. */
  lemma Utf8Iff(s: Bytes)
    ensures ValidUtf8(s) <==> exists cs :: AllScalar(cs) && s == Utf8(cs)
  {
    if ValidUtf8(s) {
      var cs := ValidIsEncoded(s);
    }
    if exists cs :: AllScalar(cs) && s == Utf8(cs) {
      var cs :| AllScalar(cs) && s == Utf8(cs);
      EncodedIsValid(cs);
    }
  }
}

/** Object keys: fixed-width hexadecimal TXIDs, their parsing and their order. */
module Keys {
  import opened Options

  const U64_LIMIT: nat := 0x1_0000_0000_0000_0000

  const HEX_WIDTH: nat := 16

  function Pow16(w: nat): (r: nat)
    ensures r >= 1
  {
    if w == 0 then 1 else 16 * Pow16(w - 1)
  }

  lemma U64IsSixteenDigits()
    ensures Pow16(HEX_WIDTH) == U64_LIMIT
  {
    assert Pow16(4) == 0x1_0000;
    assert Pow16(8) == 0x1_0000_0000;
    assert Pow16(12) == 0x1_0000_0000_0000;
  }

  function HexDigit(d: nat): (c: char)
    requires d < 16
  {
    if d < 10 then '0' + d as char else 'a' + (d - 10) as char
  }

  /** `n` in exactly `w` lower-case hexadecimal digits. */
  function Hex(n: nat, w: nat): (s: string)
    ensures |s| == w
  {
    if w == 0 then "" else Hex(n / 16, w - 1) + [HexDigit(n % 16)]
  }

  function DigitValue(c: char): (r: Option<nat>)
    ensures r.Some? ==> r.value < 16
  {
    if '0' <= c <= '9' then Some((c as int) - ('0' as int))
    else if 'a' <= c <= 'f' then Some((c as int) - ('a' as int) + 10)
    else if 'A' <= c <= 'F' then Some((c as int) - ('A' as int) + 10)
    else None
  }

  function Digits(s: string): (r: Option<nat>) {
    if s == "" then Some(0)
    else
      var head, last := Digits(s[..|s| - 1]), DigitValue(s[|s| - 1]);
      if head.Some? && last.Some? then Some(16 * head.value + last.value) else None
  }

  /** Parsing a 64-bit number from hexadecimal text: one leading `+` is accepted, an empty number and one that does
      not fit are not. */
  function ParseHex(s: string): (r: Option<nat>) {
    var body := if s != "" && s[0] == '+' then s[1..] else s;
    if body == "" then None
    else
      var v := Digits(body);
      if v.Some? && v.value < U64_LIMIT then v else None
  }

  function StripPrefix(s: string, prefix: string): (r: Option<string>) {
    if prefix <= s then Some(s[|prefix|..]) else None
  }

  function StripSuffix(s: string, suffix: string): (r: Option<string>) {
    if |suffix| <= |s| && s[|s| - |suffix|..] == suffix then Some(s[..|s| - |suffix|]) else None
  }

  /** The parts before and after the first `sep`. */
  function SplitOnce(s: string, sep: char): (r: Option<(string, string)>) {
    if s == "" then None
    else if s[0] == sep then Some(("", s[1..]))
    else
      var rest := SplitOnce(s[1..], sep);
      if rest.Some? then Some(([s[0]] + rest.value.0, rest.value.1)) else None
  }

  function Folder(prefix: string, name: string): (r: string) {
    prefix + name + "/" + Hex(0, 4) + "/"
  }

  function FileName(min: nat, max: nat, suffix: string): (r: string) {
    Hex(min, HEX_WIDTH) + ("-" + (Hex(max, HEX_WIDTH) + suffix))
  }

  function LtxKey(prefix: string, name: string, min: nat, max: nat): (r: string) {
    Folder(prefix, name) + FileName(min, max, ".ltx")
  }

  function ParseLtxKey(prefix: string, name: string, key: string): (r: Option<(nat, nat)>) {
    var file := StripPrefix(key, Folder(prefix, name));
    if file.None? then None
    else
      var stem := StripSuffix(file.value, ".ltx");
      if stem.None? then None
      else
        var parts := SplitOnce(stem.value, '-');
        if parts.None? then None
        else
          var min, max := ParseHex(parts.value.0), ParseHex(parts.value.1);
          if min.Some? && max.Some? then Some((min.value, max.value)) else None
  }

  lemma {:induction false} DigitsOfHex(n: nat, w: nat)
    requires n < Pow16(w)
    ensures Digits(Hex(n, w)) == Some(n)
    ensures forall c :: c in Hex(n, w) ==> DigitValue(c).Some?
  {
    if w == 0 {
    } else {
      DigitsOfHex(n / 16, w - 1);
      assert Hex(n, w)[..w - 1] == Hex(n / 16, w - 1);
    }
  }

  lemma ParseHexOfHex(n: nat)
    requires n < U64_LIMIT
    ensures ParseHex(Hex(n, HEX_WIDTH)) == Some(n)
    ensures '-' !in Hex(n, HEX_WIDTH)
  {
    U64IsSixteenDigits();
    DigitsOfHex(n, HEX_WIDTH);
    assert Hex(n, HEX_WIDTH)[0] in Hex(n, HEX_WIDTH);
  }

  lemma {:induction false} SplitOnceAt(a: string, sep: char, b: string)
    requires sep !in a
    ensures SplitOnce(a + [sep] + b, sep) == Some((a, b))
  {
    var s := a + [sep] + b;
    if a == "" {
      assert s[1..] == b;
    } else {
      assert s[1..] == a[1..] + [sep] + b;
      SplitOnceAt(a[1..], sep, b);
      assert [a[0]] + a[1..] == a;
    }
  }

  /** Parsing inverts key construction for every pair of 64-bit TXIDs and every prefix and name. */
  lemma KeyRoundTrip(prefix: string, name: string, min: nat, max: nat)
    requires min < U64_LIMIT && max < U64_LIMIT
    ensures ParseLtxKey(prefix, name, LtxKey(prefix, name, min, max)) == Some((min, max))
  {
    var folder, file := Folder(prefix, name), FileName(min, max, ".ltx");
    var a, b := Hex(min, HEX_WIDTH), Hex(max, HEX_WIDTH);
    assert StripPrefix(folder + file, folder) == Some(file);
    var stem := a + ['-'] + b;
    assert file == stem + ".ltx";
    assert StripSuffix(file, ".ltx") == Some(stem);
    ParseHexOfHex(min);
    ParseHexOfHex(max);
    SplitOnceAt(a, '-', b);
  }

  /** Byte-wise order of strings. */
  predicate Before(a: string, b: string) {
    if b == "" then false
    else if a == "" then true
    else a[0] < b[0] || (a[0] == b[0] && Before(a[1..], b[1..]))
  }

  lemma {:induction false} BeforeSamePrefix(p: string, a: string, b: string)
    ensures Before(p + a, p + b) <==> Before(a, b)
  {
    if p == "" {
      assert p + a == a && p + b == b;
    } else {
      assert (p + a)[1..] == p[1..] + a && (p + b)[1..] == p[1..] + b;
      BeforeSamePrefix(p[1..], a, b);
    }
  }

  /** Equal-width numbers compare like their values; what follows decides only between equal values. */
  lemma {:induction false} HexOrder(m: nat, n: nat, w: nat, a: string, b: string)
    requires m < Pow16(w) && n < Pow16(w)
    ensures Before(Hex(m, w) + a, Hex(n, w) + b) <==> m < n || (m == n && Before(a, b))
  {
    if w == 0 {
      assert Hex(m, w) + a == a && Hex(n, w) + b == b;
    } else {
      var x, y := [HexDigit(m % 16)] + a, [HexDigit(n % 16)] + b;
      assert Hex(m, w) + a == Hex(m / 16, w - 1) + x;
      assert Hex(n, w) + b == Hex(n / 16, w - 1) + y;
      HexOrder(m / 16, n / 16, w - 1, x, y);
      assert x[1..] == a && y[1..] == b;
    }
  }

  /** Keys under one folder, with one suffix, sort by (min, max): listings come in TXID order, and shadow segments,
      named `{generation}-{index}.wal` in the same width, in theirs. */
  lemma KeyOrder(folder: string, suffix: string, min: nat, max: nat, min': nat, max': nat)
    requires min < U64_LIMIT && max < U64_LIMIT && min' < U64_LIMIT && max' < U64_LIMIT
    ensures Before(folder + FileName(min, max, suffix), folder + FileName(min', max', suffix)) <==>
            min < min' || (min == min' && max < max')
  {
    U64IsSixteenDigits();
    var a, b := Hex(max, HEX_WIDTH) + suffix, Hex(max', HEX_WIDTH) + suffix;
    BeforeSamePrefix(folder, FileName(min, max, suffix), FileName(min', max', suffix));
    HexOrder(min, min', HEX_WIDTH, "-" + a, "-" + b);
    BeforeSamePrefix("-", a, b);
    HexOrder(max, max', HEX_WIDTH, suffix, suffix);
    NotBeforeItself(suffix);
  }

  lemma {:induction false} NotBeforeItself(a: string)
    ensures !Before(a, a)
  {
    if a == "" {
    } else {
      NotBeforeItself(a[1..]);
    }
  }

  /** The sixteen digits. */
  const LOWER: string := "0123456789abcdef"
  const UPPER: string := "0123456789ABCDEF"

  /** Digits are written in lower case and read in either. */
  lemma DigitIff(c: char, v: nat)
    requires v < 16
    ensures HexDigit(v) == LOWER[v]
    ensures DigitValue(c) == Some(v) <==> c == LOWER[v] || c == UPPER[v]
  {
  }

  lemma {:induction false} DigitsIff(s: string)
    ensures Digits(s).Some? <==> forall c :: c in s ==> DigitValue(c).Some?
  {
    if s == "" {
    } else {
      DigitsIff(s[..|s| - 1]);
      assert s == s[..|s| - 1] + [s[|s| - 1]];
    }
  }

  /** A number is read if and only if it has digits, after at most one sign, and fits in 64 bits. */
  lemma ParseHexIff(s: string)
    ensures var body := if "+" <= s then s[1..] else s;
            ParseHex(s).Some? <==>
            && body != "" && (forall c :: c in body ==> DigitValue(c).Some?)
            && (Digits(body).Some? ==> Digits(body).value < U64_LIMIT)
  {
    DigitsIff(if s != "" && s[0] == '+' then s[1..] else s);
  }

  lemma FolderIs(prefix: string, name: string)
    ensures Folder(prefix, name) == prefix + name + "/0000/"
  {
    assert Hex(0, 1) == "0";
    assert Hex(0, 2) == "00";
    assert Hex(0, 3) == "000";
    assert Hex(0, 4) == "0000";
    assert prefix + name + "/" + "0000" + "/" == prefix + name + "/0000/";
  }

  lemma {:induction false} SplitOnceIff(s: string, sep: char, a: string, b: string)
    ensures SplitOnce(s, sep) == Some((a, b)) <==> s == a + [sep] + b && sep !in a
  {
    if s == a + [sep] + b && sep !in a {
      SplitOnceAt(a, sep, b);
    }
    if SplitOnce(s, sep) == Some((a, b)) && s[0] != sep {
      SplitOnceIff(s[1..], sep, a[1..], b);
      assert a == [a[0]] + a[1..] && s == [s[0]] + s[1..];
      assert s == a + [sep] + b;
    } else if SplitOnce(s, sep) == Some((a, b)) {
      assert s == a + [sep] + b;
    }
  }

  /** The key names this pair of TXIDs: two numbers, a dash in between, in the folder of the live generation. */
  ghost predicate NamesPair(prefix: string, name: string, key: string, min: nat, max: nat, a: string, b: string) {
    && key == prefix + name + "/0000/" + (a + ['-'] + b + ".ltx")
    && '-' !in a && ParseHex(a) == Some(min) && ParseHex(b) == Some(max)
  }

  lemma Stripped(s: string, prefix: string, suffix: string) returns (stem: string)
    requires StripPrefix(s, prefix).Some? && StripSuffix(StripPrefix(s, prefix).value, suffix).Some?
    ensures StripSuffix(StripPrefix(s, prefix).value, suffix) == Some(stem) && s == prefix + (stem + suffix)
  {
    var rest := s[|prefix|..];
    stem := rest[..|rest| - |suffix|];
    assert rest == stem + suffix && s == prefix + rest;
  }

  lemma ParsedNamesPair(prefix: string, name: string, key: string, min: nat, max: nat) returns (a: string, b: string)
    requires ParseLtxKey(prefix, name, key) == Some((min, max))
    ensures NamesPair(prefix, name, key, min, max, a, b)
  {
    FolderIs(prefix, name);
    var stem := Stripped(key, Folder(prefix, name), ".ltx");
    a, b := SplitOnce(stem, '-').value.0, SplitOnce(stem, '-').value.1;
    SplitOnceIff(stem, '-', a, b);
  }

  lemma PairIsParsed(prefix: string, name: string, key: string, min: nat, max: nat, a: string, b: string)
    requires NamesPair(prefix, name, key, min, max, a, b)
    ensures ParseLtxKey(prefix, name, key) == Some((min, max))
  {
    FolderIs(prefix, name);
    var stem := a + ['-'] + b;
    assert StripPrefix(key, Folder(prefix, name)) == Some(stem + ".ltx");
    assert StripSuffix(stem + ".ltx", ".ltx") == Some(stem);
    SplitOnceIff(stem, '-', a, b);
  }

  /** Which keys are read, and as what. */
  lemma ParseLtxKeyIff(prefix: string, name: string, key: string, min: nat, max: nat)
    ensures ParseLtxKey(prefix, name, key) == Some((min, max)) <==>
            exists a, b :: NamesPair(prefix, name, key, min, max, a, b)
  {
    if ParseLtxKey(prefix, name, key) == Some((min, max)) {
      var a, b := ParsedNamesPair(prefix, name, key, min, max);
    }
    if exists a, b :: NamesPair(prefix, name, key, min, max, a, b) {
      var a, b :| NamesPair(prefix, name, key, min, max, a, b);
      PairIsParsed(prefix, name, key, min, max, a, b);
    }
  }

  predicate IsDecimal(s: string) {
    forall i :: 0 <= i < |s| ==> '0' <= s[i] <= '9'
  }

  /** `n` in decimal digits. */
  function Decimal(n: nat): (s: string)
    ensures |s| >= 1 && IsDecimal(s)
  {
    if n < 10 then ['0' + n as char] else Decimal(n / 10) + ['0' + (n % 10) as char]
  }

  function DecimalValue(s: string): (r: nat)
    requires IsDecimal(s)
  {
    if s == "" then 0 else 10 * DecimalValue(s[..|s| - 1]) + (s[|s| - 1] as int - '0' as int)
  }

  lemma {:induction false} DecimalRoundTrip(n: nat)
    ensures DecimalValue(Decimal(n)) == n
  {
    if n < 10 {
      assert Decimal(n)[..0] == "";
    } else {
      DecimalRoundTrip(n / 10);
      assert Decimal(n)[..|Decimal(n)| - 1] == Decimal(n / 10);
    }
  }
}

/** Telling compaction-level objects from the rest by their keys, so that the restore cache never stands in for one. */
module LevelKeys {
  import opened Keys
  import opened Options

  /** The parts between separators. */
  function Split(s: string, sep: char): (r: seq<string>)
    ensures |r| >= 1
  {
    if s == "" then [""]
    else
      var rest := Split(s[1..], sep);
      if s[0] == sep then [""] + rest else [[s[0]] + rest[0]] + rest[1..]
  }

  /** `L` and at least one digit. */
  predicate IsLevelDir(s: string) {
    |s| >= 2 && s[0] == 'L' && IsDecimal(s[1..])
  }

  predicate LevelPair(segments: seq<string>, i: nat)
    requires i + 1 < |segments|
  {
    segments[i] == "levels" && IsLevelDir(segments[i + 1])
  }

  predicate IsLevelKey(key: string) {
    var segments := Split(key, '/');
    exists i :: 0 <= i < |segments| - 1 && LevelPair(segments, i)
  }

  /** Splitting at a separator in between splits both sides. */
  lemma {:induction false} SplitJoin(a: string, sep: char, b: string)
    ensures Split(a + [sep] + b, sep) == Split(a, sep) + Split(b, sep)
  {
    var s := a + [sep] + b;
    if a == "" {
      assert s[1..] == b;
    } else {
      assert s[1..] == a[1..] + [sep] + b;
      SplitJoin(a[1..], sep, b);
    }
  }

  lemma {:induction false} SplitWithout(a: string, sep: char)
    requires sep !in a
    ensures Split(a, sep) == [a]
  {
    if a == "" {
    } else {
      SplitWithout(a[1..], sep);
      assert [a[0]] + a[1..] == a;
    }
  }

  function Join(parts: seq<string>, sep: char): (r: string)
    requires |parts| >= 1
  {
    if |parts| == 1 then parts[0] else parts[0] + [sep] + Join(parts[1..], sep)
  }

  /** Splitting loses nothing, and no part holds the separator. */
  lemma {:induction false} JoinSplit(s: string, sep: char)
    ensures Join(Split(s, sep), sep) == s
    ensures forall i :: 0 <= i < |Split(s, sep)| ==> sep !in Split(s, sep)[i]
  {
    if s == "" {
    } else {
      var rest := Split(s[1..], sep);
      JoinSplit(s[1..], sep);
      assert s == [s[0]] + s[1..];
      if s[0] == sep {
        assert ([""] + rest)[1..] == rest;
      } else {
        var parts := [[s[0]] + rest[0]] + rest[1..];
        assert parts[1..] == rest[1..];
      }
    }
  }

  lemma {:induction false} JoinTwo(a: seq<string>, b: seq<string>, sep: char)
    requires |a| >= 1 && |b| >= 1
    ensures Join(a + b, sep) == Join(a, sep) + [sep] + Join(b, sep)
  {
    if |a| == 1 {
      assert (a + b)[1..] == b;
    } else {
      assert (a + b)[1..] == a[1..] + b;
      JoinTwo(a[1..], b, sep);
    }
  }

  /** `levels`, a slash, `L` and a number, as whole segments of the key: nothing or a slash in front, nothing or a slash
      behind. */
  ghost predicate HasLevel(key: string, front: string, digits: string, back: string) {
    && key == front + ("levels/L" + digits) + back && digits != "" && IsDecimal(digits)
    && (front == "" || front[|front| - 1] == '/') && (back == "" || back[0] == '/')
  }

  lemma SplitPair(digits: string)
    requires IsDecimal(digits)
    ensures Split("levels/L" + digits, '/') == ["levels", "L" + digits]
  {
    assert "levels/L" + digits == "levels" + ['/'] + ("L" + digits);
    SplitJoin("levels", '/', "L" + digits);
    SplitWithout("levels", '/');
    SplitWithout("L" + digits, '/');
  }

  lemma SplitBehind(s: string, back: string)
    requires back == "" || back[0] == '/'
    ensures Split(s + back, '/') == Split(s, '/') + (if back == "" then [] else Split(back[1..], '/'))
  {
    if back == "" {
      assert s + back == s;
    } else {
      assert s + back == s + ['/'] + back[1..];
      SplitJoin(s, '/', back[1..]);
    }
  }

  lemma SplitInFront(front: string, s: string)
    requires front == "" || front[|front| - 1] == '/'
    ensures Split(front + s, '/') == (if front == "" then [] else Split(front[..|front| - 1], '/')) + Split(s, '/')
  {
    if front == "" {
      assert front + s == s;
    } else {
      assert front + s == front[..|front| - 1] + ['/'] + s;
      SplitJoin(front[..|front| - 1], '/', s);
    }
  }

  lemma SplitAround(front: string, s: string, back: string) returns (before: seq<string>, behind: seq<string>)
    requires (front == "" || front[|front| - 1] == '/') && (back == "" || back[0] == '/')
    ensures Split(front + s + back, '/') == before + (Split(s, '/') + behind)
  {
    before := if front == "" then [] else Split(front[..|front| - 1], '/');
    behind := if back == "" then [] else Split(back[1..], '/');
    SplitBehind(s, back);
    SplitInFront(front, s + back);
    assert front + s + back == front + (s + back);
  }

  lemma PairAt(segments: seq<string>, before: seq<string>, digits: string, behind: seq<string>)
    requires segments == before + (["levels", "L" + digits] + behind) && digits != "" && IsDecimal(digits)
    ensures |before| + 1 < |segments| && LevelPair(segments, |before|)
  {
    assert ("L" + digits)[1..] == digits;
  }

  /** The segments of such a key hold the pair. */
  lemma LevelInside(key: string, front: string, digits: string, back: string)
    requires HasLevel(key, front, digits, back)
    ensures IsLevelKey(key)
  {
    SplitPair(digits);
    var before, behind := SplitAround(front, "levels/L" + digits, back);
    PairAt(Split(key, '/'), before, digits, behind);
  }

  /** What stands in front of and behind the middle of joined segments. */
  lemma JoinAround(before: seq<string>, middle: seq<string>, behind: seq<string>) returns (front: string, back: string)
    requires |middle| >= 1
    ensures Join(before + (middle + behind), '/') == front + Join(middle, '/') + back
    ensures (front == "" || front[|front| - 1] == '/') && (back == "" || back[0] == '/')
  {
    front := if before == [] then "" else Join(before, '/') + ['/'];
    back := if behind == [] then "" else ['/'] + Join(behind, '/');
    if behind == [] {
      assert middle + behind == middle;
    } else {
      JoinTwo(middle, behind, '/');
    }
    if before == [] {
      assert before + (middle + behind) == middle + behind;
    } else {
      JoinTwo(before, middle + behind, '/');
    }
  }

  lemma JoinPair(segments: seq<string>, i: nat) returns (digits: string)
    requires i + 1 < |segments| && LevelPair(segments, i)
    ensures digits != "" && IsDecimal(digits) && Join(segments[i..i + 2], '/') == "levels/L" + digits
  {
    digits := segments[i + 1][1..];
    assert segments[i + 1] == "L" + digits;
    assert segments[i..i + 2][1..] == ["L" + digits];
  }

  /** And the pair gives such a text. */
  lemma LevelAround(key: string, i: nat) returns (front: string, digits: string, back: string)
    requires i + 1 < |Split(key, '/')| && LevelPair(Split(key, '/'), i)
    ensures HasLevel(key, front, digits, back)
  {
    var parts := Split(key, '/');
    JoinSplit(key, '/');
    digits := JoinPair(parts, i);
    front, back := JoinAround(parts[..i], parts[i..i + 2], parts[i + 2..]);
    assert parts == parts[..i] + (parts[i..i + 2] + parts[i + 2..]);
  }

  /** Which keys are taken for level keys, as text. */
  lemma LevelKeyIff(key: string)
    ensures IsLevelKey(key) <==> exists front, digits, back :: HasLevel(key, front, digits, back)
  {
    if IsLevelKey(key) {
      var i :| 0 <= i < |Split(key, '/')| - 1 && LevelPair(Split(key, '/'), i);
      var front, digits, back := LevelAround(key, i);
    }
    if exists front, digits, back :: HasLevel(key, front, digits, back) {
      var front, digits, back :| HasLevel(key, front, digits, back);
      LevelInside(key, front, digits, back);
    }
  }

  /** `{base}/levels/L{n}/{file}`, where `base` is prefix and database name. */
  function LevelObjectKey(base: string, level: nat, file: string): (r: string) {
    base + ['/'] + ("levels" + ['/'] + ("L" + Decimal(level) + ['/'] + file))
  }

  /** Every level object is recognised, whatever prefix, name, level and file name. */
  lemma LevelObjectRecognised(base: string, level: nat, file: string)
    ensures IsLevelKey(LevelObjectKey(base, level, file))
  {
    var dir := "L" + Decimal(level);
    SplitJoin(base, '/', "levels" + ['/'] + (dir + ['/'] + file));
    SplitJoin("levels", '/', dir + ['/'] + file);
    SplitJoin(dir, '/', file);
    SplitWithout("levels", '/');
    SplitWithout(dir, '/');
    var segments := Split(LevelObjectKey(base, level, file), '/');
    var n := |Split(base, '/')|;
    assert segments == Split(base, '/') + (["levels"] + ([dir] + Split(file, '/')));
    assert dir[1..] == Decimal(level);
    assert LevelPair(segments, n);
  }

  /** `{base}/{generation}/{min}-{max}.ltx`. */
  function GenerationKey(base: string, generation: nat, width: nat, min: nat, max: nat): (r: string) {
    base + ['/'] + (Hex(generation, width) + ['/'] + FileName(min, max, ".ltx"))
  }

  lemma {:induction false} HexHasNo(n: nat, w: nat, c: char)
    requires !('0' <= c <= '9') && !('a' <= c <= 'f')
    ensures c !in Hex(n, w)
  {
    if w == 0 {
    } else {
      HexHasNo(n / 16, w - 1, c);
    }
  }

  /** A generation object is taken for a level object only if its prefix and name already look like one. */
  lemma GenerationKeyIff(base: string, generation: nat, width: nat, min: nat, max: nat)
    ensures IsLevelKey(GenerationKey(base, generation, width, min, max)) <==> IsLevelKey(base)
  {
    var gen, file := Hex(generation, width), FileName(min, max, ".ltx");
    SplitJoin(base, '/', gen + ['/'] + file);
    SplitJoin(gen, '/', file);
    HexHasNo(generation, width, '/');
    HexHasNo(generation, width, 'l');
    HexHasNo(generation, width, 'L');
    HexHasNo(min, HEX_WIDTH, '/');
    HexHasNo(max, HEX_WIDTH, '/');
    SplitWithout(gen, '/');
    SplitWithout(file, '/');
    var parts, all := Split(base, '/'), Split(GenerationKey(base, generation, width, min, max), '/');
    var n := |parts|;
    assert all == parts + ([gen] + [file]);
    assert gen != "levels" by {
      assert "levels"[0] == 'l';
    }
    assert !IsLevelDir(gen);
    forall i | 0 <= i < |all| - 1
      ensures LevelPair(all, i) <==> i < n - 1 && LevelPair(parts, i)
    {
      if i < n - 1 {
        assert all[i] == parts[i] && all[i + 1] == parts[i + 1];
      } else if i == n - 1 {
        assert all[i + 1] == gen;
      } else {
        assert all[i] == gen;
      }
    }
  }

  /** The TXID range a file name stands for: `{min}-{max}.ltx` in hexadecimal, or the old flat form of eight
      decimal characters. */
  function FileRange(file: string): (r: Option<(nat, nat)>) {
    var name := StripSuffix(file, ".ltx");
    if name.None? then None
    else
      var parts := Split(name.value, '-');
      if |parts| == 2 && ParseHex(parts[0]).Some? && ParseHex(parts[1]).Some?
      then Some((ParseHex(parts[0]).value, ParseHex(parts[1]).value))
      else if |parts| != 1 || |name.value| != 8 then None
      else
        var t := ParseDecimal(name.value);
        if t.Some? then Some((t.value, t.value)) else None
  }

  /** A number in decimal text; one leading `+` is accepted. Eight characters always fit. */
  function ParseDecimal(s: string): (r: Option<nat>) {
    var body := if s != "" && s[0] == '+' then s[1..] else s;
    if body != "" && IsDecimal(body) then Some(DecimalValue(body)) else None
  }

  function KeyRange(key: string): (r: Option<(nat, nat)>) {
    var segments := Split(key, '/');
    FileRange(segments[|segments| - 1])
  }

  type Bytes = seq<nat>

  /** The cache: LTX files by their last TXID. */
  type Cache = map<nat, Bytes>

  /** The cached file that may stand in for `key`: never for a level object, and only a file that verifies (`verify`
      gives the range in its header, if it does) and covers exactly the range that the key names. */
  function Substitute(cache: Cache, verify: Bytes -> Option<(nat, nat)>, key: string): (r: Option<Bytes>) {
    if IsLevelKey(key) then None
    else
      var range := KeyRange(key);
      if range.None? || range.value.1 !in cache then None
      else
        var bytes := cache[range.value.1];
        if verify(bytes) == range then Some(bytes) else None
  }

  /** A read through the cache; a missing object is `None`. */
  function CachedGet(cache: Option<Cache>, verify: Bytes -> Option<(nat, nat)>, remote: map<string, Bytes>, key: string)
    : (r: Option<Bytes>)
  {
    var hit := if cache.Some? then Substitute(cache.value, verify, key) else None;
    if hit.Some? then hit else if key in remote then Some(remote[key]) else None
  }

  /** The cache holds `bytes` for the key: it names no level object, and the bytes verify with exactly its range. */
  ghost predicate Stands(cache: Option<Cache>, verify: Bytes -> Option<(nat, nat)>, key: string, bytes: Bytes) {
    && cache.Some? && !IsLevelKey(key) && KeyRange(key).Some? && verify(bytes) == KeyRange(key)
    && KeyRange(key).value.1 in cache.value && cache.value[KeyRange(key).value.1] == bytes
  }

  /** What a read returns: the cached bytes that stand for the key, stored remotely or not, and otherwise what is stored
      remotely. */
  lemma CachedGetIff(cache: Option<Cache>, verify: Bytes -> Option<(nat, nat)>, remote: map<string, Bytes>, key: string,
                     bytes: Bytes)
    ensures CachedGet(cache, verify, remote, key) == Some(bytes) <==>
            || Stands(cache, verify, key, bytes)
            || ((forall b :: !Stands(cache, verify, key, b)) && key in remote && remote[key] == bytes)
  {
    if cache.Some? && Substitute(cache.value, verify, key).Some? {
      assert Stands(cache, verify, key, Substitute(cache.value, verify, key).value);
    }
  }

  /** The cache holds copies of what was stored as generation objects. */
  ghost predicate Copies(cache: Cache, verify: Bytes -> Option<(nat, nat)>, remote: map<string, Bytes>) {
    forall t :: t in cache && verify(cache[t]).Some? ==>
      exists key :: key in remote && !IsLevelKey(key) && KeyRange(key) == verify(cache[t]) && remote[key] == cache[t]
  }

  ghost predicate ReadsAgree(cache: Cache, verify: Bytes -> Option<(nat, nat)>, remote: map<string, Bytes>) {
    forall key :: key in remote ==> CachedGet(Some(cache), verify, remote, key) == Some(remote[key])
  }

  ghost predicate SameRange(k: string, l: string) {
    !IsLevelKey(k) && !IsLevelKey(l) && KeyRange(k).Some? && KeyRange(k) == KeyRange(l)
  }

  /** Two generation objects that name one TXID range hold the same bytes, if one of them verifies with it. Nothing is
      said about level objects, whose names parse to ranges too but which hold another format. */
  ghost predicate OneObjectPerRange(verify: Bytes -> Option<(nat, nat)>, remote: map<string, Bytes>) {
    forall k, l :: k in remote && l in remote && SameRange(k, l) ==>
      verify(remote[k]) == KeyRange(k) ==> remote[k] == remote[l]
  }

  lemma UniqueAgrees(cache: Cache, verify: Bytes -> Option<(nat, nat)>, remote: map<string, Bytes>, key: string)
    requires OneObjectPerRange(verify, remote) && Copies(cache, verify, remote) && key in remote
    ensures CachedGet(Some(cache), verify, remote, key) == Some(remote[key])
  {
    var hit := Substitute(cache, verify, key);
    if hit.Some? {
      var t := KeyRange(key).value.1;
      var k :| k in remote && !IsLevelKey(k) && KeyRange(k) == verify(cache[t]) && remote[k] == cache[t];
      assert SameRange(k, key);
    }
  }

  lemma TwoObjectsClash(verify: Bytes -> Option<(nat, nat)>, remote: map<string, Bytes>, k: string, l: string)
    returns (cache: Cache)
    requires k in remote && l in remote && SameRange(k, l) && verify(remote[k]) == KeyRange(k) && remote[k] != remote[l]
    ensures Copies(cache, verify, remote) && !ReadsAgree(cache, verify, remote)
  {
    var t := KeyRange(k).value.1;
    cache := map[t := remote[k]];
    assert Substitute(cache, verify, l) == Some(remote[k]);
  }

  /** Reading stored objects through any cache of copies gives the remote bytes if and only if no TXID range stands for
      two different generation objects. */
  lemma CacheAgreesIff(verify: Bytes -> Option<(nat, nat)>, remote: map<string, Bytes>)
    ensures (forall cache :: Copies(cache, verify, remote) ==> ReadsAgree(cache, verify, remote)) <==>
            OneObjectPerRange(verify, remote)
  {
    if OneObjectPerRange(verify, remote) {
      forall cache | Copies(cache, verify, remote)
        ensures ReadsAgree(cache, verify, remote)
      {
        forall key | key in remote
          ensures CachedGet(Some(cache), verify, remote, key) == Some(remote[key])
        {
          UniqueAgrees(cache, verify, remote, key);
        }
      }
    } else {
      var k, l :| && k in remote && l in remote && SameRange(k, l)
                  && verify(remote[k]) == KeyRange(k) && remote[k] != remote[l];
      var cache := TwoObjectsClash(verify, remote, k, l);
    }
  }

  lemma LevelObjectBypassesCache(cache: Option<Cache>, verify: Bytes -> Option<(nat, nat)>, remote: map<string, Bytes>,
                                 base: string, level: nat, file: string)
    ensures var key := LevelObjectKey(base, level, file);
            CachedGet(cache, verify, remote, key) == if key in remote then Some(remote[key]) else None
  {
    LevelObjectRecognised(base, level, file);
  }

  /** The guard is needed: by its name alone a level object would be matched with a cached file of the same range. */
  lemma LevelNameParses(base: string, level: nat, min: nat, max: nat)
    requires min < U64_LIMIT && max < U64_LIMIT
    ensures KeyRange(LevelObjectKey(base, level, FileName(min, max, ".ltx"))) == Some((min, max))
  {
    var dir, file := "L" + Decimal(level), FileName(min, max, ".ltx");
    HexHasNo(min, HEX_WIDTH, '/');
    HexHasNo(max, HEX_WIDTH, '/');
    SplitJoin(base, '/', "levels" + ['/'] + (dir + ['/'] + file));
    SplitJoin("levels", '/', dir + ['/'] + file);
    SplitJoin(dir, '/', file);
    SplitWithout(file, '/');
    FileRangeOf(min, max);
  }

  /** And two generations can hold one range, so the condition on generation objects is one too. */
  lemma GenerationNameParses(base: string, generation: nat, width: nat, min: nat, max: nat)
    requires min < U64_LIMIT && max < U64_LIMIT
    ensures KeyRange(GenerationKey(base, generation, width, min, max)) == Some((min, max))
  {
    var gen, file := Hex(generation, width), FileName(min, max, ".ltx");
    HexHasNo(min, HEX_WIDTH, '/');
    HexHasNo(max, HEX_WIDTH, '/');
    SplitJoin(base, '/', gen + ['/'] + file);
    SplitJoin(gen, '/', file);
    SplitWithout(file, '/');
    FileRangeOf(min, max);
  }

  lemma FileRangeOf(min: nat, max: nat)
    requires min < U64_LIMIT && max < U64_LIMIT
    ensures FileRange(FileName(min, max, ".ltx")) == Some((min, max))
  {
    var a, b := Hex(min, HEX_WIDTH), Hex(max, HEX_WIDTH);
    ParseHexOfHex(min);
    ParseHexOfHex(max);
    assert FileName(min, max, ".ltx") == a + ['-'] + b + ".ltx";
    assert StripSuffix(FileName(min, max, ".ltx"), ".ltx") == Some(a + ['-'] + b);
    SplitJoin(a, '-', b);
    SplitWithout(a, '-');
    SplitWithout(b, '-');
  }

  /** The old flat form: a name without a dash is read if and only if it has eight characters that are a number. */
  lemma FlatNameIff(name: string, txid: nat)
    requires '-' !in name
    ensures FileRange(name + ".ltx") == Some((txid, txid)) <==> |name| == 8 && ParseDecimal(name) == Some(txid)
  {
    assert StripSuffix(name + ".ltx", ".ltx") == Some(name);
    SplitWithout(name, '-');
  }

  /** A name with one dash: two hexadecimal numbers. */
  lemma PairNameIff(a: string, b: string, min: nat, max: nat)
    requires '-' !in a && '-' !in b
    ensures FileRange(a + ['-'] + b + ".ltx") == Some((min, max)) <==>
            ParseHex(a) == Some(min) && ParseHex(b) == Some(max)
  {
    assert StripSuffix(a + ['-'] + b + ".ltx", ".ltx") == Some(a + ['-'] + b);
    SplitJoin(a, '-', b);
    SplitWithout(a, '-');
    SplitWithout(b, '-');
  }

  /** A name with more is not read. */
  lemma ManyDashes(a: string, b: string, c: string)
    ensures FileRange(a + ['-'] + b + ['-'] + c + ".ltx").None?
  {
    var name := a + ['-'] + b + ['-'] + c;
    assert StripSuffix(name + ".ltx", ".ltx") == Some(name);
    SplitJoin(a + ['-'] + b, '-', c);
    SplitJoin(a, '-', b);
  }

  /** A name without the suffix is not read. */
  lemma SuffixNeeded(file: string)
    requires FileRange(file).Some?
    ensures |file| >= 4 && file[|file| - 4..] == ".ltx"
  {
  }
}

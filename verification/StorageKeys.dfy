/**
 Storage keys (src/core/files/utils/generate-file-key.ts) and image variants
 (src/core/files/services/variants.service.ts).

 Strings are sequences of Unicode scalar values. Lower-casing is a parameter: only its effect on
 ASCII letters is relied on, and only where names are compared.
 */
module StorageKeys {
  import opened Common
  import opened Text

  // ---- Percent encoding, section 2.1 of RFC 3986 and section 19.2.6 of ECMA-262 -----------------

  predicate Unreserved(c: char) {
    'a' <= c <= 'z' || 'A' <= c <= 'Z' || '0' <= c <= '9'
    || c == '-' || c == '_' || c == '.' || c == '!' || c == '~' || c == '*' || c == '\'' || c == '(' || c == ')'
  }

  function Utf8(n: nat): seq<nat> {
    if n < 0x80 then [n]
    else if n < 0x800 then [0xC0 + n / 64, 0x80 + n % 64]
    else if n < 0x10000 then [0xE0 + n / 64 / 64, 0x80 + n / 64 % 64, 0x80 + n % 64]
    else [0xF0 + n / 64 / 64 / 64, 0x80 + n / 64 / 64 % 64, 0x80 + n / 64 % 64, 0x80 + n % 64]
  }

  function HexDigit(d: nat): char
    requires d < 16
  {
    if d < 10 then '0' + d as char else 'A' + (d - 10) as char
  }

  function Escape(b: nat): string
    requires b < 256
  {
    ['%', HexDigit(b / 16), HexDigit(b % 16)]
  }

  predicate Bytes(bs: seq<nat>) {
    forall i | 0 <= i < |bs| :: bs[i] < 256
  }

  function EscapeAll(bs: seq<nat>): string
    requires Bytes(bs)
  {
    if bs == [] then "" else Escape(bs[0]) + EscapeAll(bs[1..])
  }

  function EncodeChar(c: char): string {
    if Unreserved(c) then [c]
    else
      Utf8IsBytes(c as nat);
      EscapeAll(Utf8(c as nat))
  }

  function Encode(s: string): string {
    if s == "" then "" else EncodeChar(s[0]) + Encode(s[1..])
  }

  lemma Utf8IsBytes(n: nat)
    requires n <= 0x10FFFF
    ensures Bytes(Utf8(n))
  {
  }

  // ---- Percent decoding ---------------------------------------------------------------------------

  function HexValue(c: char): int {
    if '0' <= c <= '9' then c as int - '0' as int
    else if 'A' <= c <= 'F' then c as int - 'A' as int + 10
    else if 'a' <= c <= 'f' then c as int - 'a' as int + 10
    else -1
  }

  /** The byte written as an escape at a position, or -1. */
  function ByteAt(s: string, i: nat): int {
    if i + 2 < |s| && s[i] == '%' && HexValue(s[i + 1]) != -1 && HexValue(s[i + 2]) != -1 then
      16 * HexValue(s[i + 1]) + HexValue(s[i + 2])
    else -1
  }

  /** The six bits of the continuation byte escaped at a position, or -1. */
  function MoreAt(s: string, i: nat): int {
    var b := ByteAt(s, i);
    if 0x80 <= b < 0xC0 then b - 0x80 else -1
  }

  /** The scalar value at the front and the characters it takes up; None where the URI is malformed. */
  function DecodeFirst(s: string): Option<(int, nat)>
    requires s != ""
  {
    if s[0] != '%' then Some((s[0] as int, 1))
    else
      var b := ByteAt(s, 0);
      if b == -1 then None
      else if b < 0x80 then Some((b, 3))
      else
        var (x, y, z) := (MoreAt(s, 3), MoreAt(s, 6), MoreAt(s, 9));
        if 0xC0 <= b < 0xE0 && x != -1 then Some((64 * (b - 0xC0) + x, 6))
        else if 0xE0 <= b < 0xF0 && x != -1 && y != -1 then Some((64 * (64 * (b - 0xE0) + x) + y, 9))
        else if 0xF0 <= b < 0xF8 && x != -1 && y != -1 && z != -1 then
          Some((64 * (64 * (64 * (b - 0xF0) + x) + y) + z, 12))
        else None
  }

  predicate Scalar(n: int) {
    0 <= n < 0xD800 || 0xE000 <= n <= 0x10FFFF
  }

  /** A multi-byte sequence must be the shortest one for its value. */
  predicate Shortest(n: int, taken: nat) {
    (taken == 6 ==> n >= 0x80) && (taken == 9 ==> n >= 0x800) && (taken == 12 ==> n >= 0x10000)
  }

  function Decode(s: string): Option<string>
    decreases |s|
  {
    if s == "" then Some("")
    else
      var first := DecodeFirst(s);
      if first.None? || !Scalar(first.value.0) || !Shortest(first.value.0, first.value.1) || first.value.1 == 0
         || first.value.1 > |s| then None
      else
        var rest := Decode(s[first.value.1..]);
        if rest.None? then None else Some([first.value.0 as char] + rest.value)
  }

  // ---- Decoding undoes encoding ---------------------------------------------------------------------

  lemma HexRoundTrip(d: nat)
    requires d < 16
    ensures HexValue(HexDigit(d)) == d && HexDigit(d) != '/' && HexDigit(d) != '%'
  {
  }

  lemma EscapeRoundTrip(s: string, i: nat, b: nat)
    requires b < 256 && i + 3 <= |s| && s[i..i + 3] == Escape(b)
    ensures ByteAt(s, i) == b
  {
  }

  lemma {:induction false} EscapeAllAt(bs: seq<nat>, k: nat)
    requires Bytes(bs) && k < |bs|
    ensures |EscapeAll(bs)| == 3 * |bs| && EscapeAll(bs)[3 * k..3 * k + 3] == Escape(bs[k])
    decreases |bs|
  {
    hide HexDigit;
    if |bs| > 1 {
      EscapeAllAt(bs[1..], if k == 0 then 0 else k - 1);
    }
  }

  /** In front of any continuation, the escapes of some bytes read back as those bytes. */
  lemma EscapesReadBack(bs: seq<nat>, t: string, k: nat)
    requires Bytes(bs) && k < |bs|
    ensures |EscapeAll(bs)| == 3 * |bs| && ByteAt(EscapeAll(bs) + t, 3 * k) == bs[k]
  {
    hide Escape, EscapeAll, ByteAt;
    EscapeAllAt(bs, k);
    var s := EscapeAll(bs) + t;
    assert s[3 * k..3 * k + 3] == EscapeAll(bs)[3 * k..3 * k + 3];
    EscapeRoundTrip(s, 3 * k, bs[k]);
  }

  /** The value spelled by the bytes of one scalar value, their marker bits taken off. */
  function Recombined(b: seq<nat>): int
    requires 1 <= |b| <= 4
  {
    if |b| == 1 then b[0]
    else if |b| == 2 then 64 * (b[0] as int - 0xC0) + (b[1] as int - 0x80)
    else if |b| == 3 then 64 * (64 * (b[0] as int - 0xE0) + (b[1] as int - 0x80)) + (b[2] as int - 0x80)
    else 64 * (64 * (64 * (b[0] as int - 0xF0) + (b[1] as int - 0x80)) + (b[2] as int - 0x80)) + (b[3] as int - 0x80)
  }

  lemma Utf8Recombines(n: nat)
    requires n <= 0x10FFFF
    ensures var b := Utf8(n);
            && |b| == (if n < 0x80 then 1 else if n < 0x800 then 2 else if n < 0x10000 then 3 else 4)
            && Recombined(b) == n
            && (forall k | 1 <= k < |b| :: 0x80 <= b[k] < 0xC0)
            && (|b| == 2 ==> 0xC0 <= b[0] < 0xE0)
            && (|b| == 3 ==> 0xE0 <= b[0] < 0xF0)
            && (|b| == 4 ==> 0xF0 <= b[0] < 0xF8)
  {
  }

  /** The first character decoded from an encoded character and any continuation is that character. */
  lemma FirstIsEncoded(c: char, t: string)
    ensures EncodeChar(c) != "" && EncodeChar(c) + t != ""
    ensures DecodeFirst(EncodeChar(c) + t) == Some((c as int, |EncodeChar(c)|))
    ensures Shortest(c as int, |EncodeChar(c)|)
  {
    if !Unreserved(c) {
      EscapedIsEncoded(c as nat, t);
    }
  }

  lemma EscapedIsEncoded(n: nat, t: string)
    requires n <= 0x10FFFF && Bytes(Utf8(n))
    ensures var e := EscapeAll(Utf8(n));
            |e| == 3 * |Utf8(n)| && e != "" && e + t != "" && DecodeFirst(e + t) == Some((n as int, |e|))
            && Shortest(n, |e|)
  {
    hide EscapeAll, ByteAt, Utf8, Bytes;
    Utf8IsAscii(n);
    var b := Utf8(n);
    var s := EscapeAll(b) + t;
    EscapesReadBack(b, t, 0);
    StartsWithPercent(b);
    assert s[0] == '%';
    if n >= 0x80 {
      Utf8Recombines(n);
      EscapesReadBack(b, t, 1);
      if n >= 0x800 {
        EscapesReadBack(b, t, 2);
      }
      if n >= 0x10000 {
        EscapesReadBack(b, t, 3);
      }
    }
  }

  lemma Utf8IsAscii(n: nat)
    ensures Utf8(n) != [] && (n < 0x80 ==> Utf8(n) == [n])
  {
  }

  lemma StartsWithPercent(bs: seq<nat>)
    requires Bytes(bs) && bs != []
    ensures EscapeAll(bs) != "" && EscapeAll(bs)[0] == '%'
  {
  }

  /** Decoding an encoded string returns it, for every string of scalar values. */
  lemma {:induction false} DecodeUndoesEncode(s: string)
    ensures Decode(Encode(s)) == Some(s)
    decreases |s|
  {
    hide EncodeChar, DecodeFirst;
    if s != "" {
      var e, t := EncodeChar(s[0]), Encode(s[1..]);
      FirstIsEncoded(s[0], t);
      assert (e + t)[|e|..] == t;
      DecodeUndoesEncode(s[1..]);
      assert [s[0]] + s[1..] == s;
    }
  }

  lemma EncodeIsInjective(a: string, b: string)
    ensures Encode(a) == Encode(b) <==> a == b
  {
    DecodeUndoesEncode(a);
    DecodeUndoesEncode(b);
  }

  // ---- Segments -------------------------------------------------------------------------------------

  lemma {:induction false} EscapeAllHasNoSlash(bs: seq<nat>)
    requires Bytes(bs)
    ensures '/' !in EscapeAll(bs)
    decreases |bs|
  {
    hide HexDigit;
    if bs != [] {
      HexRoundTrip(bs[0] / 16);
      HexRoundTrip(bs[0] % 16);
      EscapeAllHasNoSlash(bs[1..]);
    }
  }

  lemma {:induction false} EncodedHasNoSlash(s: string)
    ensures '/' !in Encode(s)
    decreases |s|
  {
    hide EscapeAll, Utf8;
    if s != "" {
      EncodedHasNoSlash(s[1..]);
      if !Unreserved(s[0]) {
        Utf8IsBytes(s[0] as nat);
        EscapeAllHasNoSlash(Utf8(s[0] as nat));
      }
    }
  }

  // ---- The key ----------------------------------------------------------------------------------------

  datatype Folder = Folder(environment: string, moduleName: string, entityType: string, entityId: string)

  function Segments(lower: string -> string, f: Folder, variant: string, filename: string): seq<string> {
    [lower(f.environment), lower(f.moduleName), lower(f.entityType), lower(f.entityId), lower(variant), lower(filename)]
  }

  function EncodeEach(parts: seq<string>): seq<string> {
    seq(|parts|, i requires 0 <= i < |parts| => Encode(parts[i]))
  }

  function GenerateFileKey(lower: string -> string, f: Folder, variant: string, filename: string): string {
    Join(EncodeEach(Segments(lower, f, variant, filename)), '/')
  }

  /** Splitting a key at '/' and decoding the parts returns the six lower-cased segments. */
  lemma KeyRoundTrip(lower: string -> string, f: Folder, variant: string, filename: string)
    ensures var parts := Split(GenerateFileKey(lower, f, variant, filename), '/');
            var segments := Segments(lower, f, variant, filename);
            |parts| == |segments| && forall i | 0 <= i < |parts| :: Decode(parts[i]) == Some(segments[i])
  {
    hide Encode, Decode, Split, Join, Segments;
    var segments := Segments(lower, f, variant, filename);
    SegmentsAreSix(lower, f, variant, filename);
    var parts := EncodeEach(segments);
    forall i | 0 <= i < |segments|
      ensures '/' !in parts[i] && Decode(parts[i]) == Some(segments[i])
    {
      EncodedHasNoSlash(segments[i]);
      DecodeUndoesEncode(segments[i]);
    }
    SplitUndoesJoin(parts, '/');
  }

  lemma SegmentsAreSix(lower: string -> string, f: Folder, variant: string, filename: string)
    ensures |Segments(lower, f, variant, filename)| == 6
  {
  }

  /** Two keys coincide exactly when all six segments do, letter case aside. */
  lemma KeysAreInjective(lower: string -> string, f: Folder, v: string, n: string, g: Folder, w: string, m: string)
    ensures GenerateFileKey(lower, f, v, n) == GenerateFileKey(lower, g, w, m)
       <==> Segments(lower, f, v, n) == Segments(lower, g, w, m)
  {
    hide Segments, Split, Decode, GenerateFileKey;
    KeyRoundTrip(lower, f, v, n);
    KeyRoundTrip(lower, g, w, m);
    if Segments(lower, f, v, n) == Segments(lower, g, w, m) {
      SameSegmentsSameKey(lower, f, v, n, g, w, m);
    }
  }

  lemma SameSegmentsSameKey(lower: string -> string, f: Folder, v: string, n: string, g: Folder, w: string, m: string)
    requires Segments(lower, f, v, n) == Segments(lower, g, w, m)
    ensures GenerateFileKey(lower, f, v, n) == GenerateFileKey(lower, g, w, m)
  {
  }

  // ---- Image variants -----------------------------------------------------------------------------------

  const ORIGINAL := "original"
  const VARIANTS: seq<string> := ["thumbnail", "small", "medium", "large"]

  /** Position of the last dot, or -1. */
  function LastDot(s: string): (i: int)
    ensures -1 <= i < |s|
    ensures i >= 0 ==> s[i] == '.'
    ensures forall k | i < k < |s| :: s[k] != '.'
  {
    if s == "" then -1
    else if s[|s| - 1] == '.' then |s| - 1
    else LastDot(s[..|s| - 1])
  }

  /** The pattern matches: a dot, then at least one character and no further dot. */
  predicate HasExtension(s: string) {
    LastDot(s) != -1 && LastDot(s) + 1 < |s|
  }

  function Stem(s: string): string
    requires HasExtension(s)
  {
    s[..LastDot(s)]
  }

  function BaseFilename(s: string): string {
    if HasExtension(s) then Stem(s) + ".webp" else s
  }

  /** The keys an image ends up under: its original first, then its variants. */
  function AllKeys(lower: string -> string, f: Folder, filename: string): (keys: seq<string>)
    ensures |keys| == 5
  {
    [GenerateFileKey(lower, f, ORIGINAL, filename)]
    + seq(4, i requires 0 <= i < 4 => GenerateFileKey(lower, f, VARIANTS[i], BaseFilename(filename)))
  }

  predicate Ascii(s: string) {
    forall i | 0 <= i < |s| :: s[i] < 128 as char
  }

  function LowerChar(c: char): char {
    if 'A' <= c <= 'Z' then c + 32 as char else c
  }

  function AsciiLower(s: string): string {
    seq(|s|, i requires 0 <= i < |s| => LowerChar(s[i]))
  }

  /** What is relied on about lower-casing. */
  ghost predicate Lowers(lower: string -> string) {
    forall s: string | Ascii(s) :: lower(s) == AsciiLower(s)
  }

  /** The variant segment of the k-th key. */
  function VariantOf(k: nat): string
    requires k < 5
  {
    if k == 0 then ORIGINAL else VARIANTS[k - 1]
  }

  function NameOf(filename: string, k: nat): string {
    if k == 0 then filename else BaseFilename(filename)
  }

  lemma KeyAt(lower: string -> string, f: Folder, filename: string, k: nat)
    requires k < 5
    ensures AllKeys(lower, f, filename)[k] == GenerateFileKey(lower, f, VariantOf(k), NameOf(filename, k))
  {
  }

  lemma VariantNamesDiffer(lower: string -> string, j: nat, k: nat)
    requires Lowers(lower) && j < 5 && k < 5
    ensures lower(VariantOf(j)) == lower(VariantOf(k)) <==> j == k
  {
    VariantIsLower(j);
    VariantIsLower(k);
    if j != k && |VariantOf(j)| == |VariantOf(k)| {
      assert VariantOf(j)[0] != VariantOf(k)[0];
    }
  }

  lemma VariantIsLower(k: nat)
    requires k < 5
    ensures Ascii(VariantOf(k)) && AsciiLower(VariantOf(k)) == VariantOf(k)
  {
  }

  /** A key of one image equals a key of another exactly when both are for the same variant of the same name. */
  lemma SharedKeyIff(lower: string -> string, f: Folder, a: string, j: nat, b: string, k: nat)
    requires Lowers(lower) && j < 5 && k < 5
    ensures AllKeys(lower, f, a)[j] == AllKeys(lower, f, b)[k] <==> j == k && lower(NameOf(a, j)) == lower(NameOf(b, k))
  {
    hide GenerateFileKey, AllKeys, Lowers, NameOf, VariantOf;
    KeyAt(lower, f, a, j);
    KeyAt(lower, f, b, k);
    KeysAreInjective(lower, f, VariantOf(j), NameOf(a, j), f, VariantOf(k), NameOf(b, k));
    VariantNamesDiffer(lower, j, k);
  }

  /** The original and the four variants of an image have five different keys. */
  lemma KeysOfOneImageDiffer(lower: string -> string, f: Folder, filename: string)
    requires Lowers(lower)
    ensures NoDuplicates(AllKeys(lower, f, filename))
  {
    hide AllKeys, Lowers;
    forall j, k | 0 <= j < k < 5
      ensures AllKeys(lower, f, filename)[j] != AllKeys(lower, f, filename)[k]
    {
      SharedKeyIff(lower, f, filename, j, filename, k);
    }
  }

  lemma LoweringKeepsStem(a: string, b: string)
    requires HasExtension(a) && HasExtension(b) && AsciiLower(a) == AsciiLower(b)
    ensures AsciiLower(Stem(a)) == AsciiLower(Stem(b))
  {
    forall i | 0 <= i < |a|
      ensures LowerChar(a[i]) == LowerChar(b[i]) && (a[i] == '.' <==> b[i] == '.')
    {
      assert AsciiLower(a)[i] == AsciiLower(b)[i];
    }
    assert |AsciiLower(a)| == |AsciiLower(b)|;
  }

  lemma LoweringBases(a: string, b: string)
    requires HasExtension(a) && HasExtension(b)
    ensures AsciiLower(BaseFilename(a)) == AsciiLower(BaseFilename(b)) <==> AsciiLower(Stem(a)) == AsciiLower(Stem(b))
  {
    hide LastDot, HasExtension, Stem;
    var w := ".webp";
    assert AsciiLower(Stem(a) + w) == AsciiLower(Stem(a)) + AsciiLower(w);
    assert AsciiLower(Stem(b) + w) == AsciiLower(Stem(b)) + AsciiLower(w);
    assert AsciiLower(BaseFilename(a))[..|BaseFilename(a)| - 5] == AsciiLower(Stem(a));
    assert AsciiLower(BaseFilename(b))[..|BaseFilename(b)| - 5] == AsciiLower(Stem(b));
  }

  ghost predicate ShareAKey(lower: string -> string, f: Folder, a: string, b: string) {
    exists j, k :: 0 <= j < 5 && 0 <= k < 5 && AllKeys(lower, f, a)[j] == AllKeys(lower, f, b)[k]
  }

  /** Two images of a folder share a key exactly when their names, or the names of their variants, agree lower-cased. */
  lemma ImagesShareAKeyIff(lower: string -> string, f: Folder, a: string, b: string)
    requires Lowers(lower)
    ensures ShareAKey(lower, f, a, b) <==> lower(a) == lower(b) || lower(BaseFilename(a)) == lower(BaseFilename(b))
  {
    hide AllKeys, BaseFilename, Lowers;
    if j, k :| 0 <= j < 5 && 0 <= k < 5 && AllKeys(lower, f, a)[j] == AllKeys(lower, f, b)[k] {
      SharedKeyIff(lower, f, a, j, b, k);
    }
    SharedKeyIff(lower, f, a, 0, b, 0);
    SharedKeyIff(lower, f, a, 1, b, 1);
  }

  /** For ASCII names with an extension: exactly when they agree before the extension, case aside. */
  lemma StemsDecideSharing(lower: string -> string, f: Folder, a: string, b: string)
    requires Lowers(lower) && Ascii(a) && Ascii(b) && HasExtension(a) && HasExtension(b)
    ensures ShareAKey(lower, f, a, b) <==> AsciiLower(Stem(a)) == AsciiLower(Stem(b))
  {
    hide ShareAKey, AsciiLower;
    assert Ascii(BaseFilename(a)) && Ascii(BaseFilename(b));
    ImagesShareAKeyIff(lower, f, a, b);
    LoweringBases(a, b);
    if AsciiLower(a) == AsciiLower(b) {
      LoweringKeepsStem(a, b);
    }
  }

  // ---- Collecting the variants --------------------------------------------------------------------------

  datatype Settled = Fulfilled(width: int, height: int, size: int) | Failed

  datatype VariantInfo = VariantInfo(key: string, width: int, height: int, size: int)

  /** The outcomes come in the order of the variants; a failed one leaves no entry and spoils no other. */
  method GenerateVariants(lower: string -> string, f: Folder, filename: string, results: seq<Settled>)
    returns (variants: map<string, VariantInfo>)
    requires |results| == |VARIANTS|
    ensures forall v :: v in variants <==> exists i :: 0 <= i < 4 && VARIANTS[i] == v && results[i].Fulfilled?
    ensures forall i | 0 <= i < 4 && results[i].Fulfilled? ::
              variants[VARIANTS[i]] == VariantInfo(AllKeys(lower, f, filename)[i + 1],
                                                   results[i].width, results[i].height, results[i].size)
  {
    hide GenerateFileKey, BaseFilename;
    variants := map[];
    var base := BaseFilename(filename);
    for i := 0 to 4
      invariant forall v :: v in variants <==> exists k :: 0 <= k < i && VARIANTS[k] == v && results[k].Fulfilled?
      invariant forall k | 0 <= k < i && results[k].Fulfilled? ::
                  variants[VARIANTS[k]] == VariantInfo(AllKeys(lower, f, filename)[k + 1],
                                                       results[k].width, results[k].height, results[k].size)
    {
      if results[i].Fulfilled? {
        var info := VariantInfo(GenerateFileKey(lower, f, VARIANTS[i], base),
                                results[i].width, results[i].height, results[i].size);
        variants := variants[VARIANTS[i] := info];
      }
    }
  }
}

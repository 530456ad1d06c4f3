/** What the texts of storage keys look like, segment by segment and character by character. */
module KeyTexts {
  import opened Common
  import opened Text
  import opened StorageKeys

  // ---- Segments ----------------------------------------------------------------------------------

  /** Split at its slashes and decoded, a key names these six, in this order, in small letters. */
  lemma KeySpells(lower: string -> string, f: Folder, variant: string, filename: string)
    ensures var parts := Split(GenerateFileKey(lower, f, variant, filename), '/');
            && |parts| == 6
            && Decode(parts[0]) == Some(lower(f.environment)) && Decode(parts[1]) == Some(lower(f.moduleName))
            && Decode(parts[2]) == Some(lower(f.entityType)) && Decode(parts[3]) == Some(lower(f.entityId))
            && Decode(parts[4]) == Some(lower(variant)) && Decode(parts[5]) == Some(lower(filename))
  {
    hide Split, Decode, GenerateFileKey;
    KeyRoundTrip(lower, f, variant, filename);
  }

  // ---- Images --------------------------------------------------------------------------------------

  /** A name with an extension gets another one, whatever dots come before it. */
  lemma ExtensionIsReplaced(stem: string, extension: string)
    requires extension != "" && '.' !in extension
    ensures BaseFilename(stem + "." + extension) == stem + ".webp"
  {
    var name := stem + "." + extension;
    var i := LastDot(name);
    assert name[|stem|] == '.';
    assert forall k | |stem| < k < |name| :: name[k] == extension[k - |stem| - 1];
    assert i == |stem|;
    assert name[..|stem|] == stem;
  }

  /** A name without a dot, or ending in one, keeps its name. */
  lemma OtherNamesAreKept(name: string)
    requires '.' !in name || name[|name| - 1] == '.'
    ensures BaseFilename(name) == name
  {
  }

  /** The keys of an image: its own under "original", and its variants' under theirs with the new extension. */
  lemma ImageKeys(lower: string -> string, f: Folder, filename: string)
    ensures var base := BaseFilename(filename);
            AllKeys(lower, f, filename)
            == [GenerateFileKey(lower, f, "original", filename), GenerateFileKey(lower, f, "thumbnail", base),
                GenerateFileKey(lower, f, "small", base), GenerateFileKey(lower, f, "medium", base),
                GenerateFileKey(lower, f, "large", base)]
  {
    hide GenerateFileKey, BaseFilename;
  }

  // ---- Characters -----------------------------------------------------------------------------------

  const CAPITALS: string := "ABCDEFGHIJKLMNOPQRSTUVWXYZ"
  const LETTERS: string := "abcdefghijklmnopqrstuvwxyz"
  const DIGITS: string := "0123456789"
  const MARKS: string := "-_.!~*'()"
  const HEX: string := "0123456789ABCDEF"

  lemma CapitalIff(c: char)
    ensures c in CAPITALS <==> 'A' <= c <= 'Z'
  {
    if 'A' <= c <= 'Z' {
      CapitalAt(c as int - 'A' as int);
    }
  }

  lemma CapitalAt(k: nat)
    requires k < 26
    ensures CAPITALS[k] == 'A' + k as char
  {
  }

  lemma LetterIff(c: char)
    ensures c in LETTERS <==> 'a' <= c <= 'z'
  {
    if 'a' <= c <= 'z' {
      LetterAt(c as int - 'a' as int);
    }
  }

  lemma LetterAt(k: nat)
    requires k < 26
    ensures LETTERS[k] == 'a' + k as char
  {
  }

  lemma DigitIff(c: char)
    ensures c in DIGITS <==> '0' <= c <= '9'
  {
    if '0' <= c <= '9' {
      DigitAt(c as int - '0' as int);
    }
  }

  lemma DigitAt(k: nat)
    requires k < 10
    ensures DIGITS[k] == '0' + k as char
  {
  }

  /** Only letters, digits and nine marks stay as they are (section 19.2.6 of ECMA-262). */
  lemma StayingCharacters(c: char)
    ensures EncodeChar(c) == [c] <==> c in CAPITALS || c in LETTERS || c in DIGITS || c in MARKS
  {
    hide EscapeAll, Utf8;
    CapitalIff(c);
    LetterIff(c);
    DigitIff(c);
    if !Unreserved(c) {
      Utf8IsBytes(c as nat);
      Utf8IsAscii(c as nat);
      EscapesAreLong(Utf8(c as nat));
    }
  }

  lemma EscapesAreLong(bs: seq<nat>)
    requires Bytes(bs) && bs != []
    ensures |EscapeAll(bs)| >= 3
  {
  }

  /** Every other one becomes escapes of two capital hexadecimal digits each (section 2.1 of RFC 3986). */
  lemma EscapedCharacters(c: char, k: nat)
    requires EncodeChar(c) != [c]
    ensures var e := EncodeChar(c);
            |e| % 3 == 0 && (3 * k < |e| ==> e[3 * k] == '%' && e[3 * k + 1] in HEX && e[3 * k + 2] in HEX)
  {
    hide EscapeAll, Utf8, Bytes;
    Utf8IsBytes(c as nat);
    Utf8IsAscii(c as nat);
    EscapedAt(Utf8(c as nat), k);
  }

  lemma EscapedAt(bs: seq<nat>, k: nat)
    requires Bytes(bs) && bs != []
    ensures var e := EscapeAll(bs);
            |e| % 3 == 0 && (3 * k < |e| ==> e[3 * k] == '%' && e[3 * k + 1] in HEX && e[3 * k + 2] in HEX)
  {
    hide EscapeAll, Escape, Bytes;
    EscapeAllAt(bs, 0);
    if k < |bs| {
      EscapeAllAt(bs, k);
      ByteIsSmall(bs, k);
      EscapeIs(bs[k]);
      var e := EscapeAll(bs);
      var escape := e[3 * k..3 * k + 3];
      assert e[3 * k] == escape[0] && e[3 * k + 1] == escape[1] && e[3 * k + 2] == escape[2];
    }
  }

  lemma ByteIsSmall(bs: seq<nat>, k: nat)
    requires Bytes(bs) && k < |bs|
    ensures bs[k] < 256
  {
  }

  lemma EscapeIs(b: nat)
    requires b < 256
    ensures |Escape(b)| == 3 && Escape(b)[0] == '%' && Escape(b)[1] in HEX && Escape(b)[2] in HEX
  {
    HexIs(b / 16);
    HexIs(b % 16);
  }

  lemma HexIs(d: nat)
    requires d < 16
    ensures HexDigit(d) == HEX[d] && HexDigit(d) in HEX
  {
  }
}

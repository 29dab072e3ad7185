/** Base64 (section 4 of RFC 4648) and the size limits an upload passes on its way in. */
module Base64 {
  import opened Wrappers
  import opened Bytes

  const PAD: char := '='
  /** The alphabet: A-Z, a-z, 0-9, +, /. */
  function Letter(n: nat): char
    requires n < 64
  {
    if n < 26 then ('A' as int + n) as char
    else if n < 52 then ('a' as int + n - 26) as char
    else if n < 62 then ('0' as int + n - 52) as char
    else if n == 62 then '+'
    else '/'
  }

  function Value(c: char): (r: Option<nat>)
    ensures r.Some? ==> r.value < 64
  {
    if 'A' <= c <= 'Z' then Some(c as int - 'A' as int)
    else if 'a' <= c <= 'z' then Some(c as int - 'a' as int + 26)
    else if '0' <= c <= '9' then Some(c as int - '0' as int + 52)
    else if c == '+' then Some(62)
    else if c == '/' then Some(63)
    else None
  }

  /** Up to three octets as four letters, the missing ones as padding. */
  function EncodeGroup(b: seq<Byte>): (r: string)
    requires 1 <= |b| <= 3
    ensures |r| == 4
  {
    var second: Byte := if |b| > 1 then b[1] else 0;
    var third: Byte := if |b| > 2 then b[2] else 0;
    [Letter(b[0] / 4),
     Letter(b[0] % 4 * 16 + second / 16),
     if |b| > 1 then Letter(second % 16 * 4 + third / 64) else PAD,
     if |b| > 2 then Letter(third % 64) else PAD]
  }

  function Encode(b: seq<Byte>): string {
    if b == [] then []
    else if |b| <= 3 then EncodeGroup(b)
    else EncodeGroup(b[..3]) + Encode(b[3..])
  }

  /** One group of four characters; only the last may be padded. */
  function DecodeGroup(s: string, last: bool): (r: Option<seq<Byte>>)
    requires |s| == 4
    ensures r.Some? ==> |r.value| == if s[3] != PAD then 3 else if s[2] != PAD then 2 else 1
  {
    var v, w, x, y := Value(s[0]), Value(s[1]), Value(s[2]), Value(s[3]);
    if v.None? || w.None? then None else
      var first: Byte := v.value * 4 + w.value / 16;
      if last && s[2] == PAD && s[3] == PAD then Some([first])
      else if x.None? then None else
        var second: Byte := w.value % 16 * 16 + x.value / 4;
        if last && s[3] == PAD then Some([first, second])
        else if y.None? then None
        else Some([first, second, x.value % 4 * 64 + y.value])
  }

  /** A decoder of padded base64 without line breaks; None for a string that is not one. */
  function Decode(s: string): Option<seq<Byte>> {
    if s == [] then Some([])
    else if |s| < 4 then None
    else
      var group, rest := DecodeGroup(s[..4], |s| == 4), Decode(s[4..]);
      if group.None? || rest.None? then None else Some(group.value + rest.value)
  }

  lemma ReadsBackLetter(n: nat)
    requires n < 64
    ensures Value(Letter(n)) == Some(n) && Letter(n) != PAD
  {
  }

  /** Only letters of the alphabet are read, and padding only at the end. */
  lemma {:induction false} DecodeReadsTheAlphabet(s: string)
    requires Decode(s).Some?
    ensures forall i :: 0 <= i < |s| ==>
              || (exists n: nat :: n < 64 && Letter(n) == s[i])
              || (s[i] == '=' && |s| - 2 <= i && forall j :: i < j < |s| ==> s[j] == '=')
  {
    if s != [] {
      DecodeReadsTheAlphabet(s[4..]);
      forall i | 0 <= i < 4 && Value(s[i]).Some? ensures Letter(Value(s[i]).value) == s[i] { LetterOfValue(s[i]); }
      assert s[..4][0] == s[0] && s[..4][1] == s[1] && s[..4][2] == s[2] && s[..4][3] == s[3];
      hide Letter, Value, Decode;
      forall i | 4 <= i < |s| ensures s[i] == s[4..][i - 4] { }
    }
  }

  lemma LetterOfValue(c: char)
    requires Value(c).Some?
    ensures Letter(Value(c).value) == c
  {
  }

  lemma ReadsBackGroup(b: seq<Byte>, last: bool)
    requires 1 <= |b| <= 3 && (last || |b| == 3)
    ensures DecodeGroup(EncodeGroup(b), last) == Some(b)
  {
    hide Letter, Value;
    var second: Byte := if |b| > 1 then b[1] else 0;
    var third: Byte := if |b| > 2 then b[2] else 0;
    ReadsBackLetter(b[0] / 4);
    ReadsBackLetter(b[0] % 4 * 16 + second / 16);
    ReadsBackLetter(second % 16 * 4 + third / 64);
    ReadsBackLetter(third % 64);
    PadIsNoLetter();
    if |b| == 1 {
      assert b == [b[0]];
    } else if |b| == 2 {
      assert b == [b[0], b[1]];
    } else {
      assert b == [b[0], b[1], b[2]];
    }
  }

  lemma PadIsNoLetter()
    ensures Value(PAD).None?
  {
  }

  lemma DecodeStep(group: string, rest: string)
    requires |group| == 4 && DecodeGroup(group, rest == []).Some? && Decode(rest).Some?
    ensures Decode(group + rest) == Some(DecodeGroup(group, rest == []).value + Decode(rest).value)
  {
    hide DecodeGroup;
    var s := group + rest;
    assert s[..4] == group && s[4..] == rest;
  }

  lemma {:induction false} DecodeEncode(b: seq<Byte>)
    ensures Decode(Encode(b)) == Some(b)
    ensures |Encode(b)| == (|b| + 2) / 3 * 4
  {
    hide EncodeGroup, DecodeGroup;
    assert Decode([]) == Some([]);
    hide Decode;
    if 0 < |b| <= 3 {
      ReadsBackGroup(b, true);
      DecodeStep(EncodeGroup(b), []);
      assert EncodeGroup(b) + [] == EncodeGroup(b) && b + [] == b;
    } else if |b| > 3 {
      ReadsBackGroup(b[..3], false);
      DecodeEncode(b[3..]);
      DecodeStep(EncodeGroup(b[..3]), Encode(b[3..]));
      assert b == b[..3] + b[3..];
    }
  }

  // ------------------------------------------------- the estimate

  /** `len(tail) - len(tail.rstrip("="))` for the last two characters. */
  function TailPadding(s: string): nat {
    if s == [] || s[|s| - 1] != PAD then 0
    else if |s| == 1 || s[|s| - 2] != PAD then 1
    else 2
  }

  /** `_estimate_base64_decoded_size` */
  function EstimateDecodedSize(s: string): nat {
    var estimate := |s| * 3 / 4 - TailPadding(s);
    if estimate < 0 then 0 else estimate
  }

  lemma {:induction false} DecodedSize(s: string)
    requires Decode(s).Some?
    ensures |s| % 4 == 0 && |Decode(s).value| == |s| / 4 * 3 - TailPadding(s)
  {
    hide DecodeGroup;
    if s != [] {
      DecodedSize(s[4..]);
      var group := DecodeGroup(s[..4], |s| == 4);
      if |s| == 4 {
        assert s[..4] == s && Decode(s[4..]) == Some([]);
        assert group.value + [] == group.value;
        PaddingAtTheEnd(s);
      } else {
        assert |group.value| == 3 by { UnpaddedGroup(s[..4]); }
        assert TailPadding(s) == TailPadding(s[4..]);
      }
    }
  }

  lemma UnpaddedGroup(s: string)
    requires |s| == 4 && DecodeGroup(s, false).Some?
    ensures |DecodeGroup(s, false).value| == 3
  {
  }

  lemma PaddingAtTheEnd(s: string)
    requires |s| == 4 && DecodeGroup(s, true).Some?
    ensures s[..4] == s && |DecodeGroup(s, true).value| == 3 - TailPadding(s)
  {
  }

  /** On every well-formed string the estimate is the decoded size, so the size check is exact. */
  lemma {:induction false} EstimateIsExact(s: string)
    requires Decode(s).Some?
    ensures EstimateDecodedSize(s) == |Decode(s).value|
  {
    DecodedSize(s);
    hide Decode, TailPadding;
    assert |s| * 3 / 4 == |s| / 4 * 3;
  }

  /** The estimate of what was encoded is its length. */
  lemma {:induction false} EstimateOfEncoded(b: seq<Byte>)
    ensures EstimateDecodedSize(Encode(b)) == |b|
  {
    DecodeEncode(b);
    EstimateIsExact(Encode(b));
  }

  /**
   * On any letters and any padding, well-formed or not: when the estimate
   * covers every octet the letters carry, and when it falls short by the
   * padding that does not belong there.
   */
  lemma EstimateCoversLetters(letters: string, padding: string)
    requires PAD !in letters && forall c :: c in padding ==> c == PAD
    ensures |letters| * 3 / 4 <= EstimateDecodedSize(letters + padding)
       <==> !(|letters| > 0 && |letters| % 4 == 0 && |padding| in {1, 2}) && !(|letters| % 4 == 3 && |padding| == 2)
  {
    PaddingIsCounted(letters, padding);
    hide TailPadding;
    CoverArithmetic(|letters|, |padding|);
  }

  lemma PaddingIsCounted(letters: string, padding: string)
    requires PAD !in letters && forall c :: c in padding ==> c == PAD
    ensures TailPadding(letters + padding) == if |padding| < 2 then |padding| else 2
  {
    assert |letters| > 0 ==> letters[|letters| - 1] in letters;
    assert forall i :: 0 <= i < |padding| ==> padding[i] in padding;
  }

  lemma CoverArithmetic(l: nat, p: nat)
    ensures var estimate := (l + p) * 3 / 4 - (if p < 2 then p else 2);
            && (l * 3 / 4 <= (if estimate < 0 then 0 else estimate)
                <==> !(l > 0 && l % 4 == 0 && p in {1, 2}) && !(l % 4 == 3 && p == 2))
            && l * 3 / 4 <= estimate + 1
  {
    var q, r := l / 4, l % 4;
    assert l * 3 / 4 == 3 * q + r * 3 / 4;
    assert (l + p) * 3 / 4 == 3 * q + (r + p) * 3 / 4;
    if p > 2 { assert (r + p) * 3 / 4 >= (r * 3 + 9) / 4; }
  }

  /** And it never falls short by more than one octet, whatever a decoder makes of the padding. */
  lemma EstimateMissesAtMostOne(letters: string, padding: string)
    requires PAD !in letters && forall c :: c in padding ==> c == PAD
    ensures |letters| * 3 / 4 <= EstimateDecodedSize(letters + padding) + 1
  {
    PaddingIsCounted(letters, padding);
    hide TailPadding;
    CoverArithmetic(|letters|, |padding|);
  }

  /**
   * So under any decoder that gives no more octets than the letters carry, even
   * one that overlooks superfluous padding, what passes the size check is at
   * most one octet over the limit.
   */
  lemma AnyDecoderIsBounded(letters: string, padding: string, decoded: seq<Byte>, maxFileSize: nat)
    requires PAD !in letters && forall c :: c in padding ==> c == PAD
    requires |decoded| <= |letters| * 3 / 4 && EstimateDecodedSize(letters + padding) <= maxFileSize
    ensures |decoded| <= maxFileSize + 1
  {
    EstimateMissesAtMostOne(letters, padding);
    hide EstimateDecodedSize;
  }

  /** One pad too many behind a whole group: four letters carry three octets, two are estimated. */
  lemma ExtraPadIsUndercounted()
    ensures Decode("QUJD") == Some([65, 66, 67]) && EstimateDecodedSize("QUJD=") == 2
  {
    var s := "QUJD";
    assert Value(s[0]) == Some(16) && Value(s[1]) == Some(20) && Value(s[2]) == Some(9) && Value(s[3]) == Some(3);
    assert DecodeGroup(s, true) == Some([65, 66, 67]);
    assert [65, 66, 67] + [] == [65, 66, 67];
    assert s[..4] == s && Decode(s[4..]) == Some([]);
  }

  // ------------------------------------------------- the request body limit

  const ENVELOPE: nat := 8192

  /** `resolve_mcp_body_max_bytes` */
  function BodyMaxBytes(maxFileSize: nat): nat {
    (maxFileSize + 2) / 3 * 4 + ENVELOPE
  }

  /** A file within the limit passes both size checks in any envelope the headroom allows for. */
  lemma AllowedFileFits(file: seq<Byte>, envelope: nat, maxFileSize: nat)
    requires |file| <= maxFileSize && envelope <= ENVELOPE
    ensures |Encode(file)| + envelope <= BodyMaxBytes(maxFileSize)
    ensures |file| == maxFileSize ==> |Encode(file)| + 8192 == BodyMaxBytes(maxFileSize)
    ensures EstimateDecodedSize(Encode(file)) <= maxFileSize
  {
    DecodeEncode(file);
    EstimateOfEncoded(file);
    hide Encode, EstimateDecodedSize;
  }

  /** What `upload_file` stores: the decoded content, unless it is too large or malformed. */
  datatype UploadCheck = TooLarge | Malformed | Stored(content: seq<Byte>)

  function CheckUpload(content: string, maxFileSize: nat): UploadCheck {
    if EstimateDecodedSize(content) > maxFileSize then TooLarge
    else if Decode(content).None? then Malformed
    else Stored(Decode(content).value)
  }

  /** A file is stored, whole, exactly when it is within the limit; nothing larger is ever stored. */
  lemma UploadIsExact(file: seq<Byte>, content: string, maxFileSize: nat)
    ensures CheckUpload(Encode(file), maxFileSize) == if |file| <= maxFileSize then Stored(file) else TooLarge
    ensures CheckUpload(content, maxFileSize).Stored? ==> |CheckUpload(content, maxFileSize).content| <= maxFileSize
  {
    DecodeEncode(file);
    EstimateOfEncoded(file);
    if Decode(content).Some? { EstimateIsExact(content); }
    hide Encode, Decode, EstimateDecodedSize;
  }
}

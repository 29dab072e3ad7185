/** Deciding from a sample whether a file is text, and reading it as text. */
module TextSniff {
  import opened Wrappers
  import opened Bytes
  import opened Utf8

  const SNIFF_BYTES: nat := 8192
  const NUL_WINDOW: nat := 1024

  function Min(a: nat, b: nat): nat { if a < b then a else b }

  /** Python's `b[:n]` */
  function First(b: seq<Byte>, n: nat): (r: seq<Byte>)
    ensures r <= b && |r| == if n < |b| then n else |b|
  {
    b[..Min(n, |b|)]
  }

  /** Python's `b[:-cut]` for a positive cut. */
  function DropLast(b: seq<Byte>, cut: nat): seq<Byte> { First(b, if cut < |b| then |b| - cut else 0) }

  /** The loop over the cuts, from `cut` to 3. */
  predicate SomeCutDecodes(sample: seq<Byte>, cut: nat)
    decreases 4 - cut
  {
    cut < 4 && (Valid(DropLast(sample, cut)) || SomeCutDecodes(sample, cut + 1))
  }

  /** `_is_likely_text_sample` */
  predicate IsLikelyTextSample(sample: seq<Byte>) {
    0 !in First(sample, NUL_WINDOW) && (Valid(sample) || SomeCutDecodes(sample, 1))
  }

  lemma {:induction false} SomeCutFound(sample: seq<Byte>, from: nat, cut: nat)
    requires from <= cut < 4 && Valid(DropLast(sample, cut))
    ensures SomeCutDecodes(sample, from)
    decreases cut - from
  {
    if from < cut { SomeCutFound(sample, from + 1, cut); }
  }

  lemma {:induction false} CutFound(sample: seq<Byte>, from: nat) returns (cut: nat)
    requires SomeCutDecodes(sample, from)
    ensures from <= cut < 4 && Valid(DropLast(sample, cut))
    decreases 4 - from
  {
    cut := from;
    if !Valid(DropLast(sample, from)) { cut := CutFound(sample, from + 1); }
  }

  /** A valid text without an early NUL is accepted wherever the sample ends. */
  lemma CutTextIsAccepted(text: seq<Byte>, n: nat)
    requires Valid(text) && n <= |text| && 0 !in First(text, NUL_WINDOW)
    ensures IsLikelyTextSample(text[..n])
  {
    hide Decode;
    var sample := text[..n];
    assert forall b :: b in First(sample, NUL_WINDOW) ==> b in First(text, NUL_WINDOW);
    var stray := CutLosesAtMostThree(text, n);
    if stray == 0 {
      assert text[..n - stray] == sample;
    } else {
      assert DropLast(sample, stray) == text[..n - stray];
      SomeCutFound(sample, 1, stray);
    }
  }

  lemma EarlyNul(b: seq<Byte>)
    ensures 0 in First(b, NUL_WINDOW) <==> exists i :: 0 <= i < |b| && i < 1024 && b[i] == 0
  {
    var window := First(b, NUL_WINDOW);
    assert forall i :: 0 <= i < |window| ==> window[i] == b[i];
  }

  /**
   * What acceptance means, exactly: no early NUL, and a valid text once at
   * most three octets are dropped from the end.
   */
  lemma AcceptedExactly(sample: seq<Byte>)
    ensures IsLikelyTextSample(sample)
       <==> && (forall i :: 0 <= i < |sample| && i < 1024 ==> sample[i] != 0)
            && exists text, stray :: Valid(text) && |stray| <= 3 && sample == text + stray
  {
    hide Decode;
    EarlyNul(sample);
    if IsLikelyTextSample(sample) {
      if Valid(sample) {
        assert sample == sample + [];
      } else {
        var cut := CutFound(sample, 1);
        var text := DropLast(sample, cut);
        assert sample == text + sample[|text|..];
      }
    }
    if text, stray :| Valid(text) && |stray| <= 3 && sample == text + stray {
      if stray == [] {
        assert sample == text;
      } else {
        assert DropLast(sample, |stray|) == text;
        SomeCutFound(sample, 1, |stray|);
      }
    }
  }

  /** The price of the cuts: three octets that begin no text at all are taken for text. */
  lemma StrayOctetsPass()
    ensures IsLikelyTextSample([0xFF, 0xFF, 0xFF])
    ensures forall text, n: nat | Valid(text) && n <= |text| :: text[..n] != [0xFF, 0xFF, 0xFF]
  {
    assert DropLast([0xFF, 0xFF, 0xFF], 3) == [];
    SomeCutFound([0xFF, 0xFF, 0xFF], 1, 3);
    forall text, n: nat | Valid(text) && n <= |text| ensures text[..n] != [0xFF, 0xFF, 0xFF] {
      if text != [] {
        assert Width(text) > 0 && text[0] != 0xFF;
        if n > 0 { assert text[..n][0] == text[0]; }
      }
    }
  }

  // ------------------------------------------------- reading a sniffed file

  const BOM: seq<Byte> := [0xEF, 0xBB, 0xBF]

  function StripBom(raw: seq<Byte>): seq<Byte> {
    if BOM <= raw then raw[3..] else raw
  }

  /** `read_file` for a file whose name settles nothing; None stands for BINARY_CONTENT. */
  function ReadSniffed(file: seq<Byte>): Option<string> {
    if IsLikelyTextSample(First(file, SNIFF_BYTES)) then Decode(StripBom(file)) else None
  }

  lemma BomIsText(file: seq<Byte>)
    requires Valid(StripBom(file))
    ensures Valid(file)
  {
    if BOM <= file {
      assert Width(file) == 3;
    }
  }

  /**
   * A file is read exactly when it is valid text without an early NUL, and
   * what is read is the file: encoded again it is the same octets less a BOM.
   */
  lemma ReadsExactlyText(file: seq<Byte>)
    ensures var text := if [0xEF, 0xBB, 0xBF] <= file then file[3..] else file;
            && (ReadSniffed(file).Some? <==> Valid(text) && forall i :: 0 <= i < |file| && i < 1024 ==> file[i] != 0)
            && (ReadSniffed(file).Some? ==> Encode(ReadSniffed(file).value) == text)
  {
    EarlyNul(file);
    var sample := First(file, SNIFF_BYTES);
    assert First(sample, NUL_WINDOW) == First(file, NUL_WINDOW);
    if Valid(StripBom(file)) {
      EncodeDecode(StripBom(file));
      if 0 !in First(file, NUL_WINDOW) {
        BomIsText(file);
        CutTextIsAccepted(file, |sample|);
      }
    }
  }
}

/**
 * EncodingDetector: guessing the character set of a Java source file from the first
 * bytes read from it.  A byte-order mark decides first (section 6 of RFC 3629 for
 * UTF-8, section 3.2 of RFC 2781 for UTF-16); otherwise a lenient check of UTF-8 byte
 * shape (the table in section 3 of RFC 3629) and a search for Java keywords choose
 * between UTF-8 and ISO-8859-1, with UTF-8 as the default.
 *
 * Reading the file and decoding the bytes for the keyword search are not part of this
 * model: the bytes read arrive as a buffer and a count, and the keyword search is a
 * parameter.
 */
module EncodingDetector {
  import opened Wrappers

  /** The character sets the detector can answer with. */
  datatype Charset = UTF8 | UTF16LE | UTF16BE | ISO88591

  // ---------------------------------------------------------------------------
  // Byte-order marks
  // ---------------------------------------------------------------------------

  /** The first `length` bytes of the buffer start with the given bytes. */
  predicate HasPrefix(buffer: seq<bv8>, length: nat, prefix: seq<bv8>)
    requires length <= |buffer|
  {
    |prefix| <= length && forall k :: 0 <= k < |prefix| ==> buffer[k] == prefix[k]
  }

  /**
   * EncodingDetector.detectBOM: `EF BB BF` is UTF-8, `FF FE` little-endian UTF-16 and
   * `FE FF` big-endian UTF-16, tried in that order; no mark gives no answer.
   */
  function DetectBOM(buffer: seq<bv8>, length: nat): (r: Option<Charset>)
    requires length <= |buffer|
    ensures r == Some(UTF8) <==> HasPrefix(buffer, length, [0xEF, 0xBB, 0xBF])
    ensures r == Some(UTF16LE) <==> HasPrefix(buffer, length, [0xFF, 0xFE])
    ensures r == Some(UTF16BE) <==> HasPrefix(buffer, length, [0xFE, 0xFF])
    ensures r != Some(ISO88591)
  {
    if length >= 3 && buffer[0] == 0xEF && buffer[1] == 0xBB && buffer[2] == 0xBF then Some(UTF8)
    else if length >= 2 && buffer[0] == 0xFF && buffer[1] == 0xFE then Some(UTF16LE)
    else if length >= 2 && buffer[0] == 0xFE && buffer[1] == 0xFF then Some(UTF16BE)
    else None
  }

  // ---------------------------------------------------------------------------
  // The shape of UTF-8
  // ---------------------------------------------------------------------------

  /** A continuation byte, `10xxxxxx`. */
  predicate IsContinuation(b: bv8) {
    b & 0xC0 == 0x80
  }

  /**
   * How many continuation bytes a byte announces: none for `0xxxxxxx`, one for
   * `110xxxxx`, two for `1110xxxx`, three for `11110xxx`; any other byte is not a lead.
   */
  function ExtraBytes(b: bv8): Option<nat> {
    if b & 0x80 == 0 then Some(0)
    else if b & 0xE0 == 0xC0 then Some(1)
    else if b & 0xF0 == 0xE0 then Some(2)
    else if b & 0xF8 == 0xF0 then Some(3)
    else None
  }

  /** The lead bytes in terms of their values: the ranges of the table of RFC 3629, section 3, with F5 to F7 kept. */
  lemma ExtraBytesRanges(b: bv8)
    ensures ExtraBytes(b) == Some(0) <==> b < 0x80
    ensures ExtraBytes(b) == Some(1) <==> 0xC0 <= b < 0xE0
    ensures ExtraBytes(b) == Some(2) <==> 0xE0 <= b < 0xF0
    ensures ExtraBytes(b) == Some(3) <==> 0xF0 <= b < 0xF8
    ensures ExtraBytes(b) == None <==> (0x80 <= b < 0xC0 || 0xF8 <= b)
  {
  }

  /** Every byte from position 1 up to (not including) `upTo` is a continuation byte. */
  predicate ContinuationsUpTo(s: seq<bv8>, upTo: nat)
    requires upTo <= |s|
  {
    forall j :: 1 <= j < upTo ==> IsContinuation(s[j])
  }

  /**
   * EncodingDetector.isValidUTF8 on the bytes it examines: each lead byte must be
   * followed by the continuation bytes it announces; a sequence cut off by the end of
   * the bytes is accepted as long as what is there is continuation bytes.
   */
  function ValidUtf8(s: seq<bv8>): bool
    decreases |s|
  {
    if s == [] then true
    else match ExtraBytes(s[0])
      case None => false
      case Some(n) =>
        if |s| <= n then ContinuationsUpTo(s, |s|)
        else ContinuationsUpTo(s, n + 1) && ValidUtf8(s[n + 1..])
  }

  /** EncodingDetector.isValidUTF8: a scan that steps over one lead byte and its continuation bytes at a time. */
  method IsValidUTF8(buffer: array<bv8>, length: nat) returns (valid: bool)
    requires length <= buffer.Length
    ensures valid == ValidUtf8(buffer[..length])
  {
    ghost var whole := ValidUtf8(buffer[..length]);
    var i := 0;
    assert buffer[0..length] == buffer[..length];
    while i < length
      invariant i <= length
      invariant ValidUtf8(buffer[i..length]) == whole
      decreases length - i
    {
      var b := buffer[i];
      if b & 0x80 == 0 {
        ScanStep(buffer, length, i, 0, i + 1);
        i := i + 1;
        continue;
      }
      var extraBytes;
      if b & 0xE0 == 0xC0 {
        extraBytes := 1;
      } else if b & 0xF0 == 0xE0 {
        extraBytes := 2;
      } else if b & 0xF8 == 0xF0 {
        extraBytes := 3;
      } else {
        assert buffer[i..length][0] == b;
        return false;
      }
      var done;
      done, valid := CheckContinuations(buffer, length, i, extraBytes);
      if done {
        return;
      }
      var next := i + extraBytes + 1;
      ScanStep(buffer, length, i, extraBytes, next);
      i := next;
    }
    assert buffer[length..length] == [];
    valid := true;
  }

  /**
   * The inner loop of isValidUTF8 over the `extraBytes` bytes after the lead byte at `i`:
   * it decides the whole scan when the bytes run out or one is not a continuation byte.
   */
  method CheckContinuations(buffer: array<bv8>, length: nat, i: nat, extraBytes: nat)
    returns (done: bool, valid: bool)
    requires i < length <= buffer.Length && ExtraBytes(buffer[i]) == Some(extraBytes)
    ensures done ==> valid == ValidUtf8(buffer[i..length])
    ensures !done ==> i + extraBytes < length && forall k :: i < k <= i + extraBytes ==> IsContinuation(buffer[k])
  {
    ghost var rest := buffer[i..length];
    assert rest[0] == buffer[i];
    for j := 1 to extraBytes + 1
      invariant i + j <= length
      invariant forall k :: 1 <= k < j ==> IsContinuation(rest[k])
    {
      if i + j >= length {
        assert |rest| == j <= extraBytes;
        assert ContinuationsUpTo(rest, |rest|);
        return true, true;
      }
      assert rest[j] == buffer[i + j];
      if buffer[i + j] & 0xC0 != 0x80 {
        assert !IsContinuation(rest[j]);
        assert !ContinuationsUpTo(rest, |rest|);
        assert |rest| > extraBytes ==> !ContinuationsUpTo(rest, extraBytes + 1);
        return true, false;
      }
    }
    forall k | i < k <= i + extraBytes
      ensures IsContinuation(buffer[k])
    {
      assert buffer[k] == rest[k - i];
    }
    return false, false;
  }

  /** After a lead byte at `i` and the continuation bytes it announces, acceptance is decided by what follows. */
  lemma ScanStep(buffer: array<bv8>, length: nat, i: nat, n: nat, next: nat)
    requires i + n < length <= buffer.Length && ExtraBytes(buffer[i]) == Some(n) && next == i + n + 1
    requires forall k :: i < k <= i + n ==> IsContinuation(buffer[k])
    ensures ValidUtf8(buffer[i..length]) == ValidUtf8(buffer[next..length])
  {
    var rest := buffer[i..length];
    assert rest[0] == buffer[i];
    forall k | 1 <= k < n + 1
      ensures IsContinuation(rest[k])
    {
      assert rest[k] == buffer[i + k];
    }
    assert ContinuationsUpTo(rest, n + 1);
    assert rest[n + 1..] == buffer[i + n + 1..length];
  }

  /** Bytes with the high bit clear are always accepted. */
  lemma {:induction false} AsciiIsValid(s: seq<bv8>)
    requires forall k :: 0 <= k < |s| ==> s[k] & 0x80 == 0
    ensures ValidUtf8(s)
  {
    if s != [] {
      AsciiIsValid(s[1..]);
    }
  }

  /** A byte that announces no sequence (`10xxxxxx`, or `11111xxx`) at the front is rejected. */
  lemma BadLeadRejected(s: seq<bv8>)
    requires s != [] && (0x80 <= s[0] < 0xC0 || 0xF8 <= s[0])
    ensures !ValidUtf8(s)
  {
    ExtraBytesRanges(s[0]);
  }

  /** A lead byte followed, within its sequence, by a byte that is not `10xxxxxx` is rejected. */
  lemma BadContinuationRejected(s: seq<bv8>, j: nat)
    requires s != [] && ExtraBytes(s[0]).Some?
    requires 1 <= j <= ExtraBytes(s[0]).value && j < |s| && !IsContinuation(s[j])
    ensures !ValidUtf8(s)
  {
  }

  /** A sequence cut off by the end of the bytes is accepted when the bytes present continue it. */
  lemma TruncatedAccepted(s: seq<bv8>)
    requires s != [] && ExtraBytes(s[0]).Some? && |s| <= ExtraBytes(s[0]).value
    requires forall j :: 1 <= j < |s| ==> IsContinuation(s[j])
    ensures ValidUtf8(s)
  {
  }

  /** After a complete sequence, acceptance is decided by the rest. */
  lemma CompleteSequence(s: seq<bv8>, rest: seq<bv8>)
    requires s != [] && ExtraBytes(s[0]) == Some(|s| - 1)
    requires forall j :: 1 <= j < |s| ==> IsContinuation(s[j])
    ensures ValidUtf8(s + rest) == ValidUtf8(rest)
  {
    var t := s + rest;
    assert t[0] == s[0];
    assert t[|s|..] == rest;
    forall j | 1 <= j < |s|
      ensures IsContinuation(t[j])
    {
      assert t[j] == s[j];
    }
  }

  // ---------------------------------------------------------------------------
  // The reference encoding of RFC 3629, section 3
  // ---------------------------------------------------------------------------

  /** `10xxxxxx` carrying six bits of a code point. */
  function ContinuationByte(six: nat): (b: bv8)
    requires six < 64
    ensures IsContinuation(b)
  {
    0x80 | (six as bv8)
  }

  /** The UTF-8 encoding of a code point, following the table of RFC 3629, section 3. */
  function Encode(cp: nat): (r: seq<bv8>)
    requires cp <= 0x10FFFF
    ensures 1 <= |r| <= 4
    ensures forall j :: 1 <= j < |r| ==> IsContinuation(r[j])
  {
    if cp < 0x80 then [cp as bv8]
    else if cp < 0x800 then [0xC0 | ((cp / 64) as bv8), ContinuationByte(cp % 64)]
    else if cp < 0x10000 then
      [0xE0 | ((cp / 4096) as bv8), ContinuationByte((cp / 64) % 64), ContinuationByte(cp % 64)]
    else
      [0xF0 | ((cp / 262144) as bv8), ContinuationByte((cp / 4096) % 64),
       ContinuationByte((cp / 64) % 64), ContinuationByte(cp % 64)]
  }

  /** The lead byte of an encoding announces exactly the continuation bytes that follow it. */
  lemma EncodeLead(cp: nat)
    requires cp <= 0x10FFFF
    ensures ExtraBytes(Encode(cp)[0]) == Some(|Encode(cp)| - 1)
  {
    if cp < 0x80 {
      ExtraBytesRanges(Encode(cp)[0]);
    } else if cp < 0x800 {
      EncodeLeadTwo(cp);
    } else if cp < 0x10000 {
      EncodeLeadThree(cp);
    } else {
      EncodeLeadFour(cp);
    }
  }

  lemma EncodeLeadTwo(cp: nat)
    requires 0x80 <= cp < 0x800
    ensures |Encode(cp)| == 2 && ExtraBytes(Encode(cp)[0]) == Some(1)
  {
    var hi := (cp / 64) as bv8;
    assert hi < 0x20;
    assert Encode(cp)[0] == 0xC0 | hi;
    LeadBits(hi, 0xC0, 0x20);
    ExtraBytesRanges(0xC0 | hi);
  }

  lemma EncodeLeadThree(cp: nat)
    requires 0x800 <= cp < 0x10000
    ensures |Encode(cp)| == 3 && ExtraBytes(Encode(cp)[0]) == Some(2)
  {
    var hi := (cp / 4096) as bv8;
    assert hi < 0x10;
    assert Encode(cp)[0] == 0xE0 | hi;
    LeadBits(hi, 0xE0, 0x10);
    ExtraBytesRanges(0xE0 | hi);
  }

  lemma EncodeLeadFour(cp: nat)
    requires 0x10000 <= cp <= 0x10FFFF
    ensures |Encode(cp)| == 4 && ExtraBytes(Encode(cp)[0]) == Some(3)
  {
    var hi := (cp / 262144) as bv8;
    assert hi < 0x08;
    assert Encode(cp)[0] == 0xF0 | hi;
    LeadBits(hi, 0xF0, 0x08);
    ExtraBytesRanges(0xF0 | hi);
  }

  /** Setting the marker bits of a lead byte over a small payload keeps the byte in the marker's range. */
  lemma LeadBits(hi: bv8, marker: bv8, span: bv8)
    requires (marker == 0xC0 && span == 0x20) || (marker == 0xE0 && span == 0x10) || (marker == 0xF0 && span == 0x08)
    requires hi < span
    ensures marker <= marker | hi < marker + span
  {
  }

  /** Every well-formed encoding is accepted, and so is any text made of such encodings. */
  lemma EncodedAccepted(cp: nat, rest: seq<bv8>)
    requires cp <= 0x10FFFF
    ensures ValidUtf8(Encode(cp) + rest) == ValidUtf8(rest)
  {
    EncodeLead(cp);
    CompleteSequence(Encode(cp), rest);
  }

  /** The UTF-8 byte-order mark is the encoding of U+FEFF, as section 6 of RFC 3629 says. */
  lemma Utf8MarkIsEncodedFeff()
    ensures Encode(0xFEFF) == [0xEF, 0xBB, 0xBF]
  {
    assert 0xFEFF / 4096 == 15 && (0xFEFF / 64) % 64 == 59 && 0xFEFF % 64 == 63;
    assert 0xE0 | (15 as bv8) == 0xEF;
    assert ContinuationByte(59) == 0xBB;
    assert ContinuationByte(63) == 0xBF;
  }

  /**
   * The check is lenient: the overlong `C0 80`, the encoded surrogate `ED A0 80` and
   * the lead byte `F5` (beyond U+10FFFF) are all accepted.
   */
  lemma LenientShapes()
    ensures ValidUtf8([0xC0, 0x80])
    ensures ValidUtf8([0xED, 0xA0, 0x80])
    ensures ValidUtf8([0xF5, 0x80, 0x80, 0x80])
  {
    var a: seq<bv8> := [0xC0, 0x80];
    assert a[2..] == [];
    var b: seq<bv8> := [0xED, 0xA0, 0x80];
    assert b[3..] == [];
    var c: seq<bv8> := [0xF5, 0x80, 0x80, 0x80];
    assert c[4..] == [];
  }

  // ---------------------------------------------------------------------------
  // The decision
  // ---------------------------------------------------------------------------

  /**
   * EncodingDetector.detectJavaEncoding: UTF-8 when the bytes have UTF-8 shape and,
   * decoded as UTF-8, contain a Java keyword; else ISO-8859-1 when, decoded that way,
   * they contain one; else UTF-8.  `containsKeywords(bytes, charset)` stands for
   * containsJavaKeywords.
   */
  function JavaEncoding(bytes: seq<bv8>, containsKeywords: (seq<bv8>, Charset) -> bool): Charset {
    if ValidUtf8(bytes) && containsKeywords(bytes, UTF8) then UTF8
    else if containsKeywords(bytes, ISO88591) then ISO88591
    else UTF8
  }

  /**
   * EncodingDetector.detectEncoding on the result of one read into the buffer:
   * `bytesRead` is -1 at the end of the stream.  An empty file is UTF-8, a byte-order
   * mark decides next, and the Java heuristic last.
   */
  function Detection(buffer: seq<bv8>, bytesRead: int, containsKeywords: (seq<bv8>, Charset) -> bool): Charset
    requires bytesRead == -1 || 0 <= bytesRead <= |buffer|
  {
    if bytesRead == -1 then UTF8
    else
      var bom := DetectBOM(buffer, bytesRead);
      if bom.Some? then bom.value else JavaEncoding(buffer[..bytesRead], containsKeywords)
  }

  /** EncodingDetector.detectJavaEncoding, with the shape check done by the scan. */
  method DetectJavaEncoding(buffer: array<bv8>, length: nat, containsKeywords: (seq<bv8>, Charset) -> bool)
    returns (charset: Charset)
    requires length <= buffer.Length
    ensures charset == JavaEncoding(buffer[..length], containsKeywords)
  {
    var valid := IsValidUTF8(buffer, length);
    if valid && containsKeywords(buffer[..length], UTF8) {
      return UTF8;
    }
    if containsKeywords(buffer[..length], ISO88591) {
      return ISO88591;
    }
    return UTF8;
  }

  /** EncodingDetector.detectEncoding, once the first read has filled the buffer. */
  method DetectEncoding(buffer: array<bv8>, bytesRead: int, containsKeywords: (seq<bv8>, Charset) -> bool)
    returns (charset: Charset)
    requires bytesRead == -1 || 0 <= bytesRead <= buffer.Length
    ensures charset == Detection(buffer[..], bytesRead, containsKeywords)
  {
    if bytesRead == -1 {
      return UTF8;
    }
    var bomCharset := DetectBOM(buffer[..], bytesRead);
    if bomCharset.Some? {
      return bomCharset.value;
    }
    assert buffer[..][..bytesRead] == buffer[..bytesRead];
    charset := DetectJavaEncoding(buffer, bytesRead, containsKeywords);
  }

  /**
   * The decision chain: an empty file is UTF-8; a byte-order mark wins over the
   * heuristic; ISO-8859-1 is chosen only when the keywords show through it and the
   * UTF-8 test fails; every other case falls back to UTF-8.
   */
  lemma DetectionChain(buffer: seq<bv8>, bytesRead: int, containsKeywords: (seq<bv8>, Charset) -> bool)
    requires bytesRead == -1 || 0 <= bytesRead <= |buffer|
    ensures var r := Detection(buffer, bytesRead, containsKeywords);
      (bytesRead == -1 ==> r == UTF8)
      && (bytesRead != -1 && DetectBOM(buffer, bytesRead).Some? ==> r == DetectBOM(buffer, bytesRead).value)
      && (r == ISO88591 <==>
            bytesRead != -1 && DetectBOM(buffer, bytesRead).None?
            && containsKeywords(buffer[..bytesRead], ISO88591)
            && !(ValidUtf8(buffer[..bytesRead]) && containsKeywords(buffer[..bytesRead], UTF8)))
      && (r == UTF16LE || r == UTF16BE ==> bytesRead != -1 && DetectBOM(buffer, bytesRead) == Some(r))
  {
  }

  /** A buffer starting with the UTF-8 mark is UTF-8 whatever follows, the mark being tested first. */
  lemma Utf8MarkFirst(buffer: seq<bv8>, bytesRead: int, containsKeywords: (seq<bv8>, Charset) -> bool)
    requires 3 <= bytesRead <= |buffer|
    requires buffer[0] == 0xEF && buffer[1] == 0xBB && buffer[2] == 0xBF
    ensures Detection(buffer, bytesRead, containsKeywords) == UTF8
  {
    assert buffer[..3] == [0xEF, 0xBB, 0xBF];
  }
}

/**
 * String extraction from the buffer (getStringFromDataView): a bounded run of
 * bytes, cut at the first NUL, read one character per byte, then trimmed the
 * way String.prototype.trim trims.
 */
module Text {
  import opened Bytes

  function Min(a: int, b: int): int { if a <= b then a else b }

  /**
   * The characters of code 0..255 that String.prototype.trim removes: TAB,
   * LF, VT, FF, CR, SPACE and NO-BREAK SPACE.
   */
  predicate IsTrimmable(c: char) {
    var n := c as int;
    (9 <= n <= 13) || n == 0x20 || n == 0xA0
  }

  /** The character String.fromCharCode gives for one byte. */
  function CharOf(b: byte): char {
    (b as int) as char
  }

  /** String.fromCharCode applied byte by byte. */
  function Chars(bs: seq<byte>): (s: string)
    ensures |s| == |bs|
    ensures forall k :: 0 <= k < |bs| ==> s[k] == CharOf(bs[k])
  {
    seq(|bs|, k requires 0 <= k < |bs| => CharOf(bs[k]))
  }

  /** The bytes before the first NUL (all of them when there is none). */
  function TakeUntilNul(bs: seq<byte>): (r: seq<byte>)
    ensures |r| <= |bs| && r == bs[..|r|]
    ensures forall k :: 0 <= k < |r| ==> r[k] != 0
    ensures |r| < |bs| ==> bs[|r|] == 0
  {
    if bs == [] || bs[0] == 0 then []
    else
      var rest := TakeUntilNul(bs[1..]);
      assert bs[1..][..|rest|] == bs[1..|rest| + 1];
      [bs[0]] + rest
  }

  /** A NUL-free run that ends at a NUL or at the end is what TakeUntilNul keeps. */
  lemma {:induction false} NulFreePrefix(bs: seq<byte>, i: nat)
    requires i <= |bs|
    requires forall k :: 0 <= k < i ==> bs[k] != 0
    requires i < |bs| ==> bs[i] == 0
    ensures TakeUntilNul(bs) == bs[..i]
    decreases i
  {
    if i > 0 {
      var rest := bs[1..];
      forall k | 0 <= k < i - 1
        ensures rest[k] != 0
      {
        assert rest[k] == bs[k + 1];
      }
      NulFreePrefix(rest, i - 1);
      assert bs[..i] == [bs[0]] + rest[..i - 1];
    }
  }

  /** How many leading characters trim removes. */
  function LeadingTrimmable(s: string): (i: nat)
    ensures i <= |s|
    ensures forall k :: 0 <= k < i ==> IsTrimmable(s[k])
    ensures i < |s| ==> !IsTrimmable(s[i])
  {
    if s != [] && IsTrimmable(s[0]) then 1 + LeadingTrimmable(s[1..]) else 0
  }

  /** Where the trailing run that trim removes starts. */
  function TrailingStart(s: string): (j: nat)
    ensures j <= |s|
    ensures forall k :: j <= k < |s| ==> IsTrimmable(s[k])
    ensures j > 0 ==> !IsTrimmable(s[j - 1])
  {
    if s != [] && IsTrimmable(s[|s| - 1]) then TrailingStart(s[..|s| - 1]) else |s|
  }

  /** Where trim's kept part ends: after it, and only after it, the characters are trimmable. */
  function TrimEnd(s: string): (j: nat)
    ensures LeadingTrimmable(s) <= j <= |s|
    ensures forall k :: j <= k < |s| ==> IsTrimmable(s[k])
    ensures j > LeadingTrimmable(s) ==> !IsTrimmable(s[j - 1])
  {
    var i := LeadingTrimmable(s);
    TrailingIsTrimmable(s, i);
    i + TrailingStart(s[i..])
  }

  lemma TrailingIsTrimmable(s: string, i: nat)
    requires i <= |s|
    ensures forall k :: i + TrailingStart(s[i..]) <= k < |s| ==> IsTrimmable(s[k])
  {
    var t := s[i..];
    forall k | i + TrailingStart(t) <= k < |s|
      ensures IsTrimmable(s[k])
    {
      assert s[k] == t[k - i];
    }
  }

  /**
   * String.prototype.trim on code points 0..255: the part of `s` between the
   * leading and the trailing runs of trimmable characters.
   */
  function Trim(s: string): (r: string)
    ensures |r| <= |s|
    ensures r == [] || (!IsTrimmable(r[0]) && !IsTrimmable(r[|r| - 1]))
    ensures exists i, j :: 0 <= i <= j <= |s| && r == s[i..j]
              && (forall k :: 0 <= k < i ==> IsTrimmable(s[k]))
              && (forall k :: j <= k < |s| ==> IsTrimmable(s[k]))
  {
    s[LeadingTrimmable(s)..TrimEnd(s)]
  }

  /**
   * Trim's contract pins the result down: a slice s[i..j] with only
   * trimmable characters outside it, and none at its own ends, is Trim(s).
   */
  lemma TrimIsTheSlice(s: string, i: nat, j: nat)
    requires i <= j <= |s|
    requires forall k :: 0 <= k < i ==> IsTrimmable(s[k])
    requires forall k :: j <= k < |s| ==> IsTrimmable(s[k])
    requires i == j || (!IsTrimmable(s[i]) && !IsTrimmable(s[j - 1]))
    ensures Trim(s) == s[i..j]
  {
    var a, b := LeadingTrimmable(s), TrimEnd(s);
    if i == j {
      assert forall k :: 0 <= k < |s| ==> IsTrimmable(s[k]);
      assert a == |s|;
    } else {
      assert a == i;
      assert b == j;
    }
  }

  /** Trimming a string that has nothing to trim leaves it unchanged. */
  lemma TrimUntrimmed(s: string)
    requires s == [] || (!IsTrimmable(s[0]) && !IsTrimmable(s[|s| - 1]))
    ensures Trim(s) == s
  {
    assert LeadingTrimmable(s) == 0;
    assert s[0..] == s;
  }

  /** Trimming twice is trimming once. */
  lemma TrimIdempotent(s: string)
    ensures Trim(Trim(s)) == Trim(s)
  {
    TrimUntrimmed(Trim(s));
  }

  /** The trimmed, NUL-cut characters of the n bytes at `offset`. */
  function Window(buf: seq<byte>, offset: nat, n: nat): (s: string)
    requires offset + n <= |buf|
    ensures |s| <= n
    ensures forall k :: 0 <= k < |s| ==> s[k] != 0 as char
  {
    var chars := Chars(TakeUntilNul(buf[offset..offset + n]));
    assert forall k :: 0 <= k < |chars| ==> chars[k] != 0 as char;
    Trim(chars)
  }

  /**
   * getStringFromDataView: at most min(maxLength, |buf| - offset) bytes from
   * `offset`, stopping before the first NUL, as characters, trimmed; "" when
   * that bound is not positive.
   */
  function StringAt(buf: seq<byte>, offset: nat, maxLength: nat): (s: string)
    ensures |s| <= maxLength
    ensures offset >= |buf| ==> s == ""
    ensures forall k :: 0 <= k < |s| ==> s[k] != 0 as char
  {
    var n := Min(maxLength, |buf| - offset);
    if n <= 0 then "" else Window(buf, offset, n)
  }

  /** A NUL-free run of i bytes of the window, ending at a NUL or at the window's end, gives the string. */
  lemma WindowRead(buf: seq<byte>, offset: nat, maxLength: nat, n: nat, window: seq<byte>, i: nat, str: string)
    requires n == Min(maxLength, |buf| - offset) && n > 0
    requires window == buf[offset..offset + n]
    requires i <= n && (forall k :: 0 <= k < i ==> window[k] != 0) && (i < n ==> window[i] == 0)
    requires str == Chars(window[..i])
    ensures StringAt(buf, offset, maxLength) == Trim(str)
  {
    NulFreePrefix(window, i);
    StringAtIsWindow(buf, offset, maxLength);
    WindowIs(buf, offset, n);
  }

  lemma WindowIs(buf: seq<byte>, offset: nat, n: nat)
    requires offset + n <= |buf|
    ensures Window(buf, offset, n) == Trim(Chars(TakeUntilNul(buf[offset..offset + n])))
  {
  }

  /** With bytes to read, the string is the window of min(maxLength, |buf| - offset) bytes. */
  lemma StringAtIsWindow(buf: seq<byte>, offset: nat, maxLength: nat)
    requires Min(maxLength, |buf| - offset) > 0
    ensures StringAt(buf, offset, maxLength) == Window(buf, offset, Min(maxLength, |buf| - offset))
  {
  }

  /** With no byte to read, the string is empty. */
  lemma StringAtNothing(buf: seq<byte>, offset: nat, maxLength: nat)
    requires Min(maxLength, |buf| - offset) <= 0
    ensures StringAt(buf, offset, maxLength) == ""
  {
  }

  /**
   * The loop of getStringFromDataView, which appends one character per byte
   * and breaks at the first NUL, computes StringAt.
   */
  method GetString(buf: seq<byte>, offset: nat, maxLength: nat) returns (s: string)
    ensures s == StringAt(buf, offset, maxLength)
  {
    var str := "";
    var safeMaxLength := Min(maxLength, |buf| - offset);
    if safeMaxLength <= 0 {
      StringAtNothing(buf, offset, maxLength);
      return str;
    }
    ghost var window := buf[offset..offset + safeMaxLength];
    var i := 0;
    while i < safeMaxLength
      invariant 0 <= i <= safeMaxLength
      invariant forall k :: 0 <= k < i ==> window[k] != 0
      invariant |str| == i
      invariant forall k :: 0 <= k < i ==> str[k] == CharOf(window[k])
    {
      var c := buf[offset + i];
      assert c == window[i];
      if c == 0 {
        break;
      }
      str := str + [CharOf(c)];
      i := i + 1;
    }
    assert str == Chars(window[..i]);
    WindowRead(buf, offset, maxLength, safeMaxLength, window, i, str);
    s := Trim(str);
  }

  /** The bytes of the ASCII signature "Exif". */
  const ExifSignatureBytes: seq<byte> := [0x45, 0x78, 0x69, 0x66]

  /**
   * A 4-byte string read equals "Exif" exactly when the four bytes are in the
   * buffer and spell E, x, i, f: nothing can be trimmed or cut off.
   */
  lemma ExifSignature(buf: seq<byte>, offset: nat)
    ensures StringAt(buf, offset, 4) == "Exif"
        <==> offset + 4 <= |buf| && buf[offset..offset + 4] == ExifSignatureBytes
  {
    if offset + 4 <= |buf| && buf[offset..offset + 4] == ExifSignatureBytes {
      SignatureReadsExif(buf, offset);
    }
    if StringAt(buf, offset, 4) == "Exif" {
      ExifNeedsSignature(buf, offset);
    }
  }

  lemma SignatureReadsExif(buf: seq<byte>, offset: nat)
    requires offset + 4 <= |buf| && buf[offset..offset + 4] == ExifSignatureBytes
    ensures StringAt(buf, offset, 4) == "Exif"
  {
    assert Min(4, |buf| - offset) == 4;
    StringAtIsWindow(buf, offset, 4);
    WindowIs(buf, offset, 4);
    SignatureText();
  }

  /** The four signature bytes hold no NUL and spell "Exif", which trim leaves alone. */
  lemma SignatureText()
    ensures Trim(Chars(TakeUntilNul(ExifSignatureBytes))) == "Exif"
  {
    var w := ExifSignatureBytes;
    NulFreePrefix(w, 4);
    assert w[..4] == w;
    assert Chars(w) == "Exif";
    TrimUntrimmed("Exif");
  }

  lemma ExifNeedsSignature(buf: seq<byte>, offset: nat)
    requires StringAt(buf, offset, 4) == "Exif"
    ensures offset + 4 <= |buf| && buf[offset..offset + 4] == ExifSignatureBytes
  {
    var n := Min(4, |buf| - offset);
    assert n > 0;
    StringAtIsWindow(buf, offset, 4);
    WindowIs(buf, offset, n);
    var w := buf[offset..offset + n];
    var t := TakeUntilNul(w);
    var chars := Chars(t);
    assert Trim(chars) == "Exif";
    assert n == 4 && |t| == 4;
    assert t == w;
    TrimWhole(chars);
    forall k | 0 <= k < 4
      ensures w[k] == ExifSignatureBytes[k]
    {
      assert CharOf(w[k]) == "Exif"[k];
    }
  }

  /** Trimming that removes nothing leaves the string as it is. */
  lemma TrimWhole(s: string)
    requires |Trim(s)| == |s|
    ensures Trim(s) == s
  {
    assert s[0..|s|] == s;
  }

  /** Two buffers that agree on a window read the same string from it. */
  lemma StringAtSameWindow(a: seq<byte>, b: seq<byte>, offset: nat, maxLength: nat)
    requires 0 < maxLength && offset + maxLength <= |a| && offset + maxLength <= |b|
    requires a[offset..offset + maxLength] == b[offset..offset + maxLength]
    ensures StringAt(a, offset, maxLength) == StringAt(b, offset, maxLength)
  {
    assert Min(maxLength, |a| - offset) == maxLength;
    assert Min(maxLength, |b| - offset) == maxLength;
    StringAtIsWindow(a, offset, maxLength);
    StringAtIsWindow(b, offset, maxLength);
    WindowIs(a, offset, maxLength);
    WindowIs(b, offset, maxLength);
  }

  /** A string read that fits inside a prefix of the buffer reads the same from the whole buffer. */
  lemma StringAtPrefix(buf: seq<byte>, k: nat, offset: nat, maxLength: nat)
    requires k <= |buf| && offset + maxLength <= k
    ensures StringAt(buf[..k], offset, maxLength) == StringAt(buf, offset, maxLength)
  {
    if maxLength > 0 {
      assert buf[..k][offset..offset + maxLength] == buf[offset..offset + maxLength];
      StringAtSameWindow(buf[..k], buf, offset, maxLength);
    } else {
      StringAtNothing(buf[..k], offset, maxLength);
      StringAtNothing(buf, offset, maxLength);
    }
  }
}

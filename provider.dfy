/**
 * The segment-file bookkeeping of internal/storage/provider.go: file
 * numbers handed out by a counter, the name "%06d.segment" a number is
 * written under, and the scan of a directory listing back into file
 * metadata with fmt.Sscanf(name, "%06d.%s").
 */
module Providers {
  import opened Wrappers

  /** FileTypeUknown (0) and FileTypeSegment (1). */
  datatype FileType = Unknown | Segment

  datatype FileMetadata = FileMetadata(fileNum: int, fileType: FileType)

  /** IsSegment: the file is a segment. */
  predicate IsSegment(f: FileMetadata) {
    f.fileType == Segment
  }

  predicate IsDigit(c: char) {
    '0' <= c <= '9'
  }

  predicate AllDigits(s: string) {
    forall i :: 0 <= i < |s| ==> IsDigit(s[i])
  }

  const TenToSix := 1000000

  /** The decimal digits of n, most significant first, without leading zeros. */
  function Digits(n: nat): (s: string)
    ensures 1 <= |s| && AllDigits(s)
    ensures n < 10 <==> |s| == 1
    decreases n
  {
    if n < 10 then [('0' as int + n) as char] else Digits(n / 10) + [('0' as int + n % 10) as char]
  }

  /** The number a string of decimal digits spells. */
  function ValueOf(s: string): nat
    requires AllDigits(s)
  {
    if s == [] then 0 else 10 * ValueOf(s[..|s| - 1]) + (s[|s| - 1] as int - '0' as int)
  }

  function Zeros(k: nat): (s: string)
    ensures |s| == k && AllDigits(s)
  {
    seq(k, _ => '0')
  }

  /** %0wd of a digit string: zeros in front up to width w, nothing cut off. */
  function ZeroPad(ds: string, w: nat): string {
    if |ds| < w then Zeros(w - |ds|) + ds else ds
  }

  /** generateFileName: fmt.Sprintf("%06d.segment", n); the sign counts towards the width. */
  function FileName(n: int): string {
    if n < 0 then "-" + ZeroPad(Digits(-n), 5) + ".segment" else ZeroPad(Digits(n), 6) + ".segment"
  }

  /** The number of decimal digits s starts with. */
  function DigitRun(s: string): (k: nat)
    ensures k <= |s| && AllDigits(s[..k]) && (k < |s| ==> !IsDigit(s[k]))
  {
    if s == [] || !IsDigit(s[0]) then 0
    else
      var k := 1 + DigitRun(s[1..]);
      assert forall i :: 1 <= i < k ==> s[..k][i] == s[1..][..k - 1][i - 1];
      k
  }

  /** The characters up to the first space or the end: what %s reads. */
  function WordRun(s: string): (k: nat)
    ensures k <= |s| && forall i :: 0 <= i < k ==> s[i] != ' '
    ensures k < |s| ==> s[k] == ' '
  {
    if s == [] || s[0] == ' ' then 0 else 1 + WordRun(s[1..])
  }

  /**
   * The %d verb reading at most width characters of s: an optional sign,
   * then at least one decimal digit; the value and the characters consumed.
   */
  function ScanInt(s: string, width: nat): (r: Option<(int, nat)>)
    ensures r.Some? ==> 1 <= r.value.1 <= |s| && r.value.1 <= width
  {
    var w := if |s| <= width then s else s[..width];
    var sign := if |w| > 0 && (w[0] == '+' || w[0] == '-') then 1 else 0;
    var d := DigitRun(w[sign..]);
    if d == 0 then None
    else
      var v: int := ValueOf(w[sign..][..d]);
      Some((if sign == 1 && w[0] == '-' then -v else v, sign + d))
  }

  /**
   * fmt.Sscanf(name, "%<width>d.%s"): a number, a literal '.', then a word.
   * width is 6 as written; an unlimited width is ScanInt with width |name|.
   */
  function ScanName(name: string, width: nat): Result<(int, string)> {
    match ScanInt(name, width)
    case None => Failure("expected integer")
    case Some((n, c)) =>
      if c == |name| || name[c] != '.' then Failure("input does not match format")
      else
        var rest := name[c + 1..];
        var k := WordRun(rest);
        if k == 0 then Failure("unexpected EOF") else Success((n, rest[..k]))
  }

  /** The metadata ListFiles makes of one directory entry's name. */
  function ScanEntry(name: string, width: nat): Result<FileMetadata> {
    match ScanName(name, width)
    case Failure(e) => Failure(e)
    case Success((n, ext)) => Success(FileMetadata(n, if ext == "segment" then Segment else Unknown))
  }

  /**
   * ListFiles over the directory's entry names: ".DS_Store" is skipped,
   * every other name must scan or the whole listing fails.
   */
  function Listed(names: seq<string>, width: nat): Result<seq<FileMetadata>> {
    if names == [] then Success([])
    else
      var front := Listed(names[..|names| - 1], width);
      var name := names[|names| - 1];
      if front.Failure? then front
      else if name == ".DS_Store" then front
      else match ScanEntry(name, width)
        case Failure(e) => Failure(e)
        case Success(f) => Success(front.value + [f])
  }

  lemma {:induction false} ValueOfDigits(n: nat)
    ensures ValueOf(Digits(n)) == n
    decreases n
  {
    if n >= 10 {
      ValueOfDigits(n / 10);
      var s := Digits(n);
      assert s[..|s| - 1] == Digits(n / 10);
    }
  }

  /** Leading zeros do not change the value. */
  lemma {:induction false} ValueOfZeros(k: nat, ds: string)
    requires AllDigits(ds)
    ensures AllDigits(Zeros(k) + ds) && ValueOf(Zeros(k) + ds) == ValueOf(ds)
    decreases |ds|
  {
    var s := Zeros(k) + ds;
    assert AllDigits(s) by {
      forall i | 0 <= i < |s| ensures IsDigit(s[i]) {
        if i >= k { assert s[i] == ds[i - k]; }
      }
    }
    if ds == [] {
      assert s == Zeros(k);
      ValueOfAllZeros(k);
    } else {
      ValueOfZeros(k, ds[..|ds| - 1]);
      assert s[..|s| - 1] == Zeros(k) + ds[..|ds| - 1];
    }
  }

  lemma {:induction false} ValueOfAllZeros(k: nat)
    ensures ValueOf(Zeros(k)) == 0
  {
    if k > 0 {
      ValueOfAllZeros(k - 1);
      assert Zeros(k)[..k - 1] == Zeros(k - 1);
    }
  }

  /** A number has at most six digits exactly when it is below 10^6. */
  lemma {:induction false} DigitsLength(n: nat)
    ensures |Digits(n)| <= 6 <==> n < TenToSix
  {
    DigitsBound(n, 6);
  }

  lemma {:induction false} DigitsBound(n: nat, k: nat)
    requires k >= 1
    ensures |Digits(n)| <= k <==> n < Pow10(k)
    decreases n
  {
    Pow10Positive(k - 1);
    if n >= 10 && k > 1 {
      DigitsBound(n / 10, k - 1);
    }
  }

  function Pow10(k: nat): nat {
    if k == 0 then 1 else 10 * Pow10(k - 1)
  }

  lemma {:induction false} Pow10Positive(k: nat)
    ensures Pow10(k) >= 1
  {
    if k > 0 {
      Pow10Positive(k - 1);
    }
  }

  /** The digit string of a name below 10^6 with its zero padding: six digits. */
  lemma PaddedDigits(n: nat)
    requires n < TenToSix
    ensures var p := ZeroPad(Digits(n), 6);
      |p| == 6 && AllDigits(p) && ValueOf(p) == n
  {
    DigitsLength(n);
    ValueOfDigits(n);
    var ds := Digits(n);
    if |ds| < 6 {
      ValueOfZeros(6 - |ds|, ds);
    }
  }

  /** A digit string followed by a dot: its digit run is the whole digit string. */
  lemma DigitRunBeforeDot(p: string, tail: string)
    requires AllDigits(p) && |tail| > 0 && tail[0] == '.'
    ensures DigitRun(p + tail) == |p|
    decreases |p|
  {
    if p != [] {
      assert (p + tail)[1..] == p[1..] + tail;
      DigitRunBeforeDot(p[1..], tail);
    } else {
      assert (p + tail)[0] == '.';
    }
  }

  /** A window that starts with a digit scans, unsigned, as its leading run of digits. */
  lemma ScanIntUnsigned(s: string, width: nat, w: string)
    requires w == if |s| <= width then s else s[..width]
    requires |w| > 0 && IsDigit(w[0])
    ensures DigitRun(w) >= 1
    ensures ScanInt(s, width) == Some((ValueOf(w[..DigitRun(w)]) as int, DigitRun(w)))
  {
    assert w[0..] == w;
  }

  /** A digit string p at the front of w, followed by a dot or by nothing, is w's digit run. */
  lemma PaddedRun(p: string, w: string)
    requires AllDigits(p) && |p| <= |w| && w[..|p|] == p
    requires |w| > |p| ==> w[|p|] == '.'
    ensures DigitRun(w) == |p|
  {
    if |w| > |p| {
      assert w == p + w[|p|..];
      DigitRunBeforeDot(p, w[|p|..]);
    } else {
      assert w == p;
      DigitRunAll(p);
    }
  }

  /** The number in front of ".segment" reads as a whole, at any width it fits in. */
  lemma ScanIntPadded(p: string, width: nat)
    requires AllDigits(p) && 1 <= |p| <= width
    ensures ScanInt(p + ".segment", width) == Some((ValueOf(p) as int, |p|))
  {
    var s := p + ".segment";
    var w := if |s| <= width then s else s[..width];
    assert w[..|p|] == p && w[0] == p[0];
    assert |w| > |p| ==> w[|p|] == s[|p|] == '.';
    PaddedRun(p, w);
    ScanIntUnsigned(s, width, w);
  }

  lemma WordRunSegment()
    ensures WordRun("segment") == 7
  {
    assert "segment"[1..] == "egment";
    assert "egment"[1..] == "gment";
    assert "gment"[1..] == "ment";
    assert "ment"[1..] == "ent";
    assert "ent"[1..] == "nt";
    assert "nt"[1..] == "t";
    assert "t"[1..] == "";
  }

  /** A scanned number followed by a dot and a whole word reads as that number and word. */
  lemma ScanNameDot(name: string, width: nat, n: int, c: nat, w: string)
    requires ScanInt(name, width) == Some((n, c))
    requires c < |name| && name[c] == '.' && name[c + 1..] == w
    requires 0 < |w| == WordRun(w)
    ensures ScanName(name, width) == Success((n, w))
  {
    assert w[..|w|] == w;
  }

  /** A digit string followed by ".segment" scans back, at any width it fits in. */
  lemma ScanPaddedName(p: string, width: nat)
    requires AllDigits(p) && 1 <= |p| <= width
    ensures ScanName(p + ".segment", width) == Success((ValueOf(p), "segment"))
  {
    var tail := ".segment";
    var s := p + tail;
    ScanIntPadded(p, width);
    assert s[|p|..] == tail;
    assert s[|p| + 1..] == tail[1..] == "segment";
    WordRunSegment();
    ScanNameDot(s, width, ValueOf(p) as int, |p|, "segment");
  }

  /**
   * A name generateFileName writes for a number below 10^6 scans back, at
   * the width of six that ListFiles uses, to that number and the extension
   * "segment".
   */
  lemma FileNameScans(n: nat)
    requires n < TenToSix
    ensures ScanName(FileName(n), 6) == Success((n, "segment"))
    ensures ScanEntry(FileName(n), 6) == Success(FileMetadata(n, Segment))
  {
    PaddedDigits(n);
    ScanPaddedName(ZeroPad(Digits(n), 6), 6);
  }

  /**
   * The width of six cuts the number off a name generateFileName writes for
   * a number of 10^6 or more, and the scan then meets a digit where it
   * wants the '.': such a segment makes ListFiles fail.
   */
  lemma LargeFileNumberUnreadable(n: nat)
    requires n >= TenToSix
    ensures ScanName(FileName(n), 6).Failure?
  {
    var ds := Digits(n);
    DigitsLength(n);
    var s := FileName(n);
    assert s == ds + ".segment";
    var w := s[..6];
    assert w == ds[..6];
    assert AllDigits(w);
    assert w[0] != '+' && w[0] != '-';
    assert w[0..] == w;
    DigitRunAll(w);
    assert s[6] == ds[6];
  }

  lemma DigitRunAll(s: string)
    requires AllDigits(s)
    ensures DigitRun(s) == |s|
    decreases |s|
  {
    if s != [] {
      DigitRunAll(s[1..]);
    }
  }

  /**
   * Without the width limit, every name generateFileName writes for a
   * number that is not negative scans back to that number.
   */
  lemma FileNameScansUnbounded(n: nat)
    ensures var s := FileName(n); ScanName(s, |s|) == Success((n, "segment"))
  {
    var ds := Digits(n);
    var p := ZeroPad(ds, 6);
    ValueOfDigits(n);
    if |ds| < 6 {
      ValueOfZeros(6 - |ds|, ds);
    }
    ScanPaddedName(p, |p + ".segment"|);
  }

  /** The names generateFileName gives the numbers ns. */
  function FileNames(ns: seq<nat>): (names: seq<string>)
    ensures |names| == |ns|
  {
    if ns == [] then [] else FileNames(ns[..|ns| - 1]) + [FileName(ns[|ns| - 1])]
  }

  /** Segment metadata for each of the numbers ns. */
  function SegmentsOf(ns: seq<nat>): seq<FileMetadata> {
    if ns == [] then [] else SegmentsOf(ns[..|ns| - 1]) + [FileMetadata(ns[|ns| - 1], Segment)]
  }

  /** The names generateFileName writes for numbers below 10^6 list back as those segments. */
  lemma {:induction false} SegmentsListBack(ns: seq<nat>)
    requires forall i :: 0 <= i < |ns| ==> ns[i] < TenToSix
    ensures Listed(FileNames(ns), 6) == Success(SegmentsOf(ns))
  {
    if ns != [] {
      var names := FileNames(ns);
      var pre, n := ns[..|ns| - 1], ns[|ns| - 1];
      SegmentsListBack(pre);
      assert names[..|names| - 1] == FileNames(pre);
      FileNameScans(n);
      PaddedDigits(n);
      var last := names[|names| - 1];
      assert last == ZeroPad(Digits(n), 6) + ".segment";
      assert last != ".DS_Store" by {
        assert IsDigit(last[0]);
      }
    }
  }

  /** Provider: hands out file numbers from its counter. */
  class Provider {
    var fileNum: int

    constructor ()
      ensures fileNum == 0
    {
      fileNum := 0;
    }

    /** nextFileNum: the counter goes up by one and its new value is the number. */
    method NextFileNum() returns (n: int)
      modifies this
      ensures fileNum == old(fileNum) + 1 && n == fileNum
    {
      fileNum := fileNum + 1;
      n := fileNum;
    }

    /** PrepareNewFile: a segment under the next number, above every number handed out before. */
    method PrepareNewFile() returns (f: FileMetadata)
      modifies this
      ensures f == FileMetadata(old(fileNum) + 1, Segment) && fileNum == f.fileNum
      ensures IsSegment(f) && f.fileNum > old(fileNum)
    {
      var n := NextFileNum();
      f := FileMetadata(n, Segment);
    }

    /** ListFiles over the directory's entry names, in the order the directory listing gives them. */
    method ListFiles(names: seq<string>) returns (r: Result<seq<FileMetadata>>)
      ensures r == Listed(names, 6)
    {
      var meta: seq<FileMetadata> := [];
      var i := 0;
      while i < |names|
        invariant 0 <= i <= |names|
        invariant Listed(names[..i], 6) == Success(meta)
      {
        var name := names[i];
        assert names[..i + 1][..i] == names[..i] && names[..i + 1][i] == name;
        if name != ".DS_Store" {
          var scanned := ScanName(name, 6);
          if scanned.Failure? {
            FailureSticks(names, i + 1, 6);
            assert names[..|names|] == names;
            return Failure(scanned.msg);
          }
          var (fileNumber, fileExtension) := scanned.value;
          var fileType := Unknown;
          if fileExtension == "segment" {
            fileType := Segment;
          }
          meta := meta + [FileMetadata(fileNumber, fileType)];
        }
        i := i + 1;
      }
      assert names[..i] == names;
      r := Success(meta);
    }
  }

  /** Once a prefix of the names fails to list, the whole listing fails with it. */
  lemma {:induction false} FailureSticks(names: seq<string>, i: nat, width: nat)
    requires i <= |names| && Listed(names[..i], width).Failure?
    ensures Listed(names, width) == Listed(names[..i], width)
    decreases |names| - i
  {
    if i < |names| {
      assert names[..i + 1][..i] == names[..i];
      FailureSticks(names, i + 1, width);
    } else {
      assert names[..i] == names;
    }
  }
}

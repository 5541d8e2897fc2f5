/** The device-command frames carried inside outer frames: 13-byte
    configuration frames `0x56 0xAB cmd field[8] checksum 0xCF`, the
    page frame (1030 bytes: the 1029-byte frame of `sendFileData_V1` with
    room for the page's last byte, see `PageFrameAsWritten`), and the cutting of the image into pages
    (src/upload-wifi.mjs). */
module DeviceCommands {
  import opened Wrappers
  import opened Bytes

  const HEAD_0: Byte := 0x56
  const HEAD_1: Byte := 0xAB
  const TAIL: Byte := 0xCF
  const PAGE_SIZE: nat := 1024
  const SPACE: Byte := 32
  /** Header (2), index (2), page, checksum (1) and terminator (1). */
  const PAGE_FRAME_SIZE: nat := 4 + PAGE_SIZE + 2

  /** The device's rule for every configuration frame: the checksum at
      byte 11 is the command byte plus the eight field bytes, mod 256. */
  predicate IsConfigFrame(f: seq<Byte>)
  {
    && |f| == 13
    && f[0] == HEAD_0 && f[1] == HEAD_1 && f[12] == TAIL
    && f[11] == (f[2] + Sum(f[3..11])) % 256
  }

  /** The page frame `0x56 0xAB idx_lo idx_hi page[1024] checksum 0xCF`:
      the checksum at byte 1028 is the sum of the index bytes and the page
      bytes, mod 256. */
  predicate IsPageFrame(f: seq<Byte>)
  {
    && |f| == PAGE_FRAME_SIZE
    && f[0] == HEAD_0 && f[1] == HEAD_1 && f[1029] == TAIL
    && f[1028] == Sum(f[2..1028]) % 256
  }

  lemma ModSum(a: int, b: int)
    ensures (a + b) % 256 == (a % 256 + b % 256) % 256
  {
  }

  // ---------------------------------------------------------------------
  // Fixed frames

  /** `wiFiDownloadToUserSpace`: six bytes, no checksum. */
  function UserSpaceFrame(): seq<Byte>
  {
    [HEAD_0, HEAD_1, 6, 0xFE, 0, 0]
  }

  /** `getRCUType`: command 2, a zero field and the literal checksum 2. */
  function RcuTypeFrame(): seq<Byte>
  {
    [HEAD_0, HEAD_1, 2] + Zeros(8) + [2, TAIL]
  }

  /** `setStartDownload_V1`: command 4, a zero field and the literal checksum 4. */
  function StartDownloadFrame(): seq<Byte>
  {
    [HEAD_0, HEAD_1, 4] + Zeros(8) + [4, TAIL]
  }

  /** The literal checksums 2 and 4 follow the device's rule. */
  lemma FixedFramesWellFormed()
    ensures IsConfigFrame(RcuTypeFrame()) && RcuTypeFrame()[2] == 2
    ensures IsConfigFrame(StartDownloadFrame()) && StartDownloadFrame()[2] == 4
  {
    SumZeros(8);
    assert RcuTypeFrame()[3..11] == Zeros(8);
    assert StartDownloadFrame()[3..11] == Zeros(8);
  }

  // ---------------------------------------------------------------------
  // File name

  /** `pat` occurs in `s` at index `j`. */
  predicate OccursAt(s: string, pat: string, j: nat)
  {
    j + |pat| <= |s| && s[j..j + |pat|] == pat
  }

  /** The index of the first occurrence of `pat` in `s` (`indexOf`). */
  function IndexOf(s: string, pat: string): (r: Option<nat>)
    ensures r.Some? ==> OccursAt(s, pat, r.value)
    ensures r.Some? ==> forall j :: 0 <= j < r.value ==> !OccursAt(s, pat, j)
    ensures r.None? ==> forall j :: 0 <= j ==> !OccursAt(s, pat, j)
    decreases |s|
  {
    if |s| < |pat| then None
    else if s[..|pat|] == pat then Some(0)
    else
      assert !OccursAt(s, pat, 0) by { assert s[0..|pat|] == s[..|pat|]; }
      assert forall j: nat :: j >= 1 ==> (OccursAt(s, pat, j) <==> OccursAt(s[1..], pat, j - 1)) by {
        forall j: nat | j >= 1 ensures OccursAt(s, pat, j) <==> OccursAt(s[1..], pat, j - 1) {
          if j + |pat| <= |s| {
            assert s[1..][j - 1..j - 1 + |pat|] == s[j..j + |pat|];
          }
        }
      }
      assert forall j: nat :: OccursAt(s[1..], pat, j) ==> OccursAt(s, pat, j + 1);
      match IndexOf(s[1..], pat)
      case None => None
      case Some(k) => Some(k + 1)
  }

  /** `fileName.substring(0, fileName.indexOf('.bin'))` when the name
      contains ".bin", the name itself otherwise. */
  function BinStem(fileName: string): (stem: string)
    ensures |stem| <= |fileName| && stem == fileName[..|stem|]
    ensures |stem| < |fileName| ==> OccursAt(fileName, ".bin", |stem|)
    ensures forall j :: 0 <= j < |stem| ==> !OccursAt(fileName, ".bin", j)
  {
    match IndexOf(fileName, ".bin")
    case Some(i) => fileName[..i]
    case None => fileName
  }

  /** `Buffer.from(s, 'ascii')`: the low eight bits of each character. */
  function Latin1(s: string): (b: seq<Byte>)
    ensures |b| == |s|
  {
    seq(|s|, k requires 0 <= k < |s| => ToByte(s[k] as int))
  }

  /** The eight-byte name field: a space-filled buffer with the first (at
      most) eight bytes of the stem copied in. */
  function NameField(fileName: string): (field: seq<Byte>)
    ensures |field| == 8
    ensures forall j :: 0 <= j < 8 ==>
      field[j] == if j < |BinStem(fileName)| then Latin1(BinStem(fileName))[j] else SPACE
  {
    var name := Latin1(BinStem(fileName));
    var n := if |name| < 8 then |name| else 8;
    name[..n] + seq(8 - n, _ => SPACE)
  }

  /** `setFileName`: command 7, the name field and `(7 + sum) & 0xFF`. */
  function FileNameFrame(fileName: string): (f: seq<Byte>)
    ensures |f| == 13 && f[2] == 7 && f[3..11] == NameField(fileName)
  {
    var field := NameField(fileName);
    [HEAD_0, HEAD_1, 7] + field + [ToByte(7 + Sum(field)), TAIL]
  }

  lemma FileNameFrameWellFormed(fileName: string)
    ensures IsConfigFrame(FileNameFrame(fileName))
    ensures FileNameFrame(fileName)[2] == 7 && FileNameFrame(fileName)[3..11] == NameField(fileName)
  {
    var f := FileNameFrame(fileName);
    assert f[3..11] == NameField(fileName);
  }

  /** A program name `stem` without dots, uploaded as `stem.bin...`, is sent
      as its first eight bytes, padded with spaces: "firmware.bin" becomes
      "firmware". */
  lemma NameFieldStripsBin(stem: string, rest: string)
    requires '.' !in stem
    ensures var n := if |stem| < 8 then |stem| else 8;
            NameField(stem + ".bin" + rest) == Latin1(stem)[..n] + seq(8 - n, _ => SPACE)
  {
    var s, pat := stem + ".bin" + rest, ".bin";
    assert OccursAt(s, pat, |stem|) by { assert s[|stem|..|stem| + |pat|] == pat; }
    assert forall j :: 0 <= j < |stem| ==> !OccursAt(s, pat, j) by {
      forall j | 0 <= j < |stem| ensures !OccursAt(s, pat, j) {
        if j + |pat| <= |s| {
          assert s[j..j + |pat|][0] == stem[j];
        }
      }
    }
    var r := IndexOf(s, pat);
    assert r.Some?;
    var i := r.value;
    assert i == |stem|;
    assert s[..i] == stem;
  }

  // ---------------------------------------------------------------------
  // File date

  datatype LocalTime = LocalTime(year: int, month: int, day: int, hour: int, minute: int)

  /** The range the FAT date and time fields can hold (a later year makes
      `writeUInt16LE` throw). */
  predicate InFatRange(t: LocalTime)
  {
    && 1980 <= t.year < 1980 + 128
    && 1 <= t.month <= 12 && 1 <= t.day <= 31
    && 0 <= t.hour < 24 && 0 <= t.minute < 60
  }

  /** The local wall-clock time `new Date()` reads when the date is sent. */
  type ClockTime = t: LocalTime | InFatRange(t) witness LocalTime(1980, 1, 1, 0, 0)

  /** `a | b` on non-negative integers, bit by bit. */
  function BitOr(a: nat, b: nat): nat
    decreases a + b
  {
    if a == 0 then b
    else if b == 0 then a
    else 2 * BitOr(a / 2, b / 2) + (if a % 2 == 1 || b % 2 == 1 then 1 else 0)
  }

  function Pow2(k: nat): (p: nat)
    ensures p >= 1
  {
    if k == 0 then 1 else 2 * Pow2(k - 1)
  }

  /** Or-ing a value below `2^k` into a value shifted left by `k` adds them:
      the bit fields do not overlap. */
  lemma {:induction false} BitOrDisjoint(a: nat, b: nat, k: nat)
    requires b < Pow2(k)
    ensures BitOr(a * Pow2(k), b) == a * Pow2(k) + b
  {
    if k > 0 && a != 0 && b != 0 {
      var p := Pow2(k - 1);
      assert a * Pow2(k) == 2 * (a * p);
      assert (a * Pow2(k)) / 2 == a * p && (a * Pow2(k)) % 2 == 0;
      BitOrDisjoint(a, b / 2, k - 1);
    }
  }

  /** `(hour << 11) | (minute << 5)`: the FAT directory-entry time, with
      the two-second field left zero. */
  function FatTime(t: ClockTime): nat
  {
    BitOr(t.hour * 0x800, t.minute * 0x20)
  }

  /** `((year - 1980) << 9) | (month << 5) | day`: the FAT directory-entry date. */
  function FatDate(t: ClockTime): nat
  {
    BitOr(BitOr((t.year - 1980) * 0x200, t.month * 0x20), t.day)
  }

  /** The packed time unpacks to the clock's fields: hours in bits 15-11,
      minutes in bits 10-5, zero seconds in bits 4-0. */
  lemma FatTimeUnpacks(t: ClockTime)
    ensures FatTime(t) < 0x1_0000
    ensures FatTime(t) / 0x800 == t.hour && (FatTime(t) / 0x20) % 0x40 == t.minute
    ensures FatTime(t) % 0x20 == 0
  {
    assert Pow2(11) == 0x800 by { assert Pow2(5) == 0x20; }
    BitOrDisjoint(t.hour, t.minute * 0x20, 11);
    var x := t.hour * 0x800 + t.minute * 0x20;
    assert x == (t.hour * 0x40 + t.minute) * 0x20;
    assert x / 0x20 == t.hour * 0x40 + t.minute;
  }

  /** The packed date unpacks to the clock's fields: years since 1980 in
      bits 15-9, month in bits 8-5, day in bits 4-0. */
  lemma FatDateUnpacks(t: ClockTime)
    ensures FatDate(t) < 0x1_0000
    ensures FatDate(t) / 0x200 == t.year - 1980 && (FatDate(t) / 0x20) % 0x10 == t.month
    ensures FatDate(t) % 0x20 == t.day
  {
    var y := t.year - 1980;
    FatDateIsSum(t);
    DateFieldsUnpack(y, t.month, t.day);
  }

  /** The three or-ed date fields do not overlap, so or-ing them adds them. */
  lemma FatDateIsSum(t: ClockTime)
    ensures FatDate(t) == ((t.year - 1980) * 0x10 + t.month) * 0x20 + t.day
  {
    assert Pow2(9) == 0x200 by { assert Pow2(5) == 0x20; }
    var y := t.year - 1980;
    BitOrDisjoint(y, t.month * 0x20, 9);
    var ym := y * 0x10 + t.month;
    assert y * 0x200 + t.month * 0x20 == ym * 0x20;
    BitOrDisjoint(ym, t.day, 5);
  }

  lemma DateFieldsUnpack(y: nat, month: nat, day: nat)
    requires y < 128 && month < 16 && day < 32
    ensures var x := (y * 0x10 + month) * 0x20 + day;
      x < 0x1_0000 && x / 0x200 == y && (x / 0x20) % 0x10 == month && x % 0x20 == day
  {
    var ym := y * 0x10 + month;
    var x := ym * 0x20 + day;
    assert x == y * 0x200 + (month * 0x20 + day);
    assert x / 0x20 == ym;
  }

  /** `writeUInt16LE`: the low byte, then the high byte. */
  function LowByte(x: nat): Byte
  {
    x % 0x100
  }

  function HighByte(x: nat): Byte
    requires x < 0x1_0000
  {
    x / 0x100
  }

  /** `setFileDate`: command 8, time and date little-endian, four zero
      bytes and `(8 + data[3] + data[4] + data[5] + data[6]) & 0xFF`. */
  function FileDateFrame(t: ClockTime): (f: seq<Byte>)
    ensures |f| == 13 && f[2] == 8 && f[7..11] == Zeros(4)
  {
    FatTimeUnpacks(t);
    FatDateUnpacks(t);
    var tl, th := LowByte(FatTime(t)), HighByte(FatTime(t));
    var dl, dh := LowByte(FatDate(t)), HighByte(FatDate(t));
    [HEAD_0, HEAD_1, 8, tl, th, dl, dh] + Zeros(4) + [ToByte(8 + tl + th + dl + dh), TAIL]
  }

  /** The date frame follows the device's rule, and its little-endian time
      and date fields unpack to the clock it was built from. */
  lemma FileDateFrameFields(t: ClockTime)
    ensures var f := FileDateFrame(t);
      && IsConfigFrame(f) && f[2] == 8
      && FatTime(t) == f[3] + (f[4] as int) * 0x100 && FatDate(t) == f[5] + (f[6] as int) * 0x100
      && f[7..11] == Zeros(4)
  {
    FatTimeUnpacks(t);
    FatDateUnpacks(t);
    var f := FileDateFrame(t);
    var tl, th, dl, dh := f[3], f[4], f[5], f[6];
    assert f[3..11] == [tl, th] + [dl, dh] + Zeros(4);
    SumAppend([tl, th] + [dl, dh], Zeros(4));
    SumAppend([tl, th], [dl, dh]);
    SumPair(tl, th);
    SumPair(dl, dh);
    SumZeros(4);
  }

  // ---------------------------------------------------------------------
  // Page size and page count

  /** `setPageSize(size)`: command 9, `size & 0xFF`, `(size >> 8) & 0xFF`,
      zeros and `(low + high + 9) & 0xFF`. */
  function PageSizeFrame(size: int): (f: seq<Byte>)
    ensures |f| == 13 && f[2] == 9 && f[3] == ToByte(size) && f[4] == ToByte(Shr8(size))
  {
    var low, high := ToByte(size), ToByte(Shr8(size));
    [HEAD_0, HEAD_1, 9, low, high] + Zeros(6) + [ToByte(low + high + 9), TAIL]
  }

  /** `setPageSum(sum)`: command 6, the count little-endian, zeros and the
      checksum as written, `(sum + (sum >> 8) + 6) & 0xFF`. */
  function PageSumFrame(sum: int): (f: seq<Byte>)
    ensures |f| == 13 && f[2] == 6 && f[3] == ToByte(sum) && f[4] == ToByte(Shr8(sum))
  {
    [HEAD_0, HEAD_1, 6, ToByte(sum), ToByte(Shr8(sum))] + Zeros(6)
      + [ToByte(sum + Shr8(sum) + 6), TAIL]
  }

  lemma TwoByteFieldSum(f: seq<Byte>)
    requires |f| == 13 && f[5..11] == Zeros(6)
    ensures Sum(f[3..11]) == f[3] as int + f[4]
  {
    assert f[3..11] == [f[3], f[4]] + Zeros(6);
    SumAppend([f[3], f[4]], Zeros(6));
    SumPair(f[3], f[4]);
    SumZeros(6);
  }

  /** The page-size frame follows the device's rule; the page size 1024
      goes out as 0x00 0x04. */
  lemma PageSizeFrameWellFormed(size: int)
    ensures var f := PageSizeFrame(size);
      IsConfigFrame(f) && f[2] == 9 && f[3] == ToByte(size) && f[4] == ToByte(Shr8(size))
    ensures PageSizeFrame(PAGE_SIZE)[3..5] == [0x00, 0x04]
  {
    var f := PageSizeFrame(size);
    assert f[5..11] == Zeros(6);
    TwoByteFieldSum(f);
    assert ToInt32(PAGE_SIZE) == PAGE_SIZE;
  }

  /** The page-count checksum as written, `sum + (sum >> 8) + 6`, is
      computed from the whole count rather than from its two field bytes,
      yet for every count it equals `6 + low + high` mod 256: the frame
      follows the device's rule. */
  lemma PageSumFrameWellFormed(sum: int)
    ensures var f := PageSumFrame(sum);
      IsConfigFrame(f) && f[2] == 6 && f[3] == ToByte(sum) && f[4] == ToByte(Shr8(sum))
  {
    var f := PageSumFrame(sum);
    assert f[5..11] == Zeros(6);
    TwoByteFieldSum(f);
    var hi := Shr8(sum);
    calc {
      f[11];
      (sum + hi + 6) % 256;
      { ModSum(sum + hi, 6); ModSum(sum, hi); }
      ((sum % 256 + hi % 256) % 256 + 6) % 256;
      { ModSum(sum % 256 + hi % 256, 6); }
      (6 + f[3] as int + f[4]) % 256;
    }
  }

  // ---------------------------------------------------------------------
  // Pages

  /** `Math.ceil(length / 1024)`. */
  function PageTotal(length: nat): (n: nat)
    ensures n * PAGE_SIZE >= length
    ensures n > 0 ==> (n - 1) * PAGE_SIZE < length
  {
    (length + PAGE_SIZE - 1) / PAGE_SIZE
  }

  /** Page `i`: the image bytes `[1024 i, min(length, 1024 i + 1024))`
      followed by zeros up to 1024 bytes. */
  function Page(image: seq<Byte>, i: nat): (page: seq<Byte>)
    requires i < PageTotal(|image|)
    ensures |page| == PAGE_SIZE
  {
    var offset := PAGE_SIZE * i;
    var end := if offset + PAGE_SIZE <= |image| then offset + PAGE_SIZE else |image|;
    image[offset..end] + Zeros(PAGE_SIZE - (end - offset))
  }

  /** Byte `j` of page `i` is image byte `1024 i + j`, or zero past the end. */
  lemma PageAt(image: seq<Byte>, i: nat, j: nat)
    requires i < PageTotal(|image|) && j < PAGE_SIZE
    ensures Page(image, i)[j] == if PAGE_SIZE * i + j < |image| then image[PAGE_SIZE * i + j] else 0
  {
  }

  /** Every image byte travels in exactly one page, at its own offset: the
      pages put back together are the image. */
  lemma ImageByteInPage(image: seq<Byte>, k: nat)
    requires k < |image|
    ensures k / PAGE_SIZE < PageTotal(|image|)
    ensures Page(image, k / PAGE_SIZE)[k % PAGE_SIZE] == image[k]
  {
    var i, j := k / PAGE_SIZE, k % PAGE_SIZE;
    assert k == PAGE_SIZE * i + j;
    PageAt(image, i, j);
  }

  /** The inner frame for page `index`: the index little-endian, the page,
      and `(sum + low + high) & 0xFF`, laid out one after the other. */
  function PageFrame(index: int, page: seq<Byte>): (f: seq<Byte>)
    requires |page| == PAGE_SIZE
    ensures |f| == PAGE_FRAME_SIZE
    ensures f[..4] == [HEAD_0, HEAD_1, ToByte(index), ToByte(Shr8(index))]
    ensures f[4..4 + PAGE_SIZE] == page && f[PAGE_FRAME_SIZE - 1] == TAIL
  {
    var low, high := ToByte(index), ToByte(Shr8(index));
    [HEAD_0, HEAD_1, low, high] + page + [ToByte(Sum(page) + low + high), TAIL]
  }

  /** A page frame follows the device's rule, carries the page verbatim at
      offset 4, and an index below 65536 at bytes 2-3. */
  lemma PageFrameWellFormed(index: nat, page: seq<Byte>)
    requires |page| == PAGE_SIZE
    ensures var f := PageFrame(index, page);
      && IsPageFrame(f) && f[4..4 + PAGE_SIZE] == page
      && (index < 0x1_0000 ==> f[2] + (f[3] as int) * 0x100 == index)
  {
    var f := PageFrame(index, page);
    var low, high := f[2], f[3];
    assert f[2..1028] == [low, high] + page by {
      forall k | 0 <= k < 2 + PAGE_SIZE ensures f[2..1028][k] == ([low, high] + page)[k] {
        if k >= 2 {
          assert f[2 + k] == page[k - 2];
        }
      }
    }
    SumAppend([low, high], page);
    SumPair(low, high);
    if index < 0x1_0000 {
      assert ToInt32(index) == index;
    }
  }

  /** The frame `sendFileData_V1` builds as written: `Buffer.alloc(1029)`,
      the page copied to offsets 4..1027, and then the checksum stored at
      offset 1027, over the page's last byte, and 0xCF at 1028. */
  function PageFrameAsWritten(index: int, page: seq<Byte>): (f: seq<Byte>)
    requires |page| == PAGE_SIZE
    ensures |f| == PAGE_FRAME_SIZE - 1
    ensures f[..4] == [HEAD_0, HEAD_1, ToByte(index), ToByte(Shr8(index))]
    ensures f[4..1027] == page[..1023]
    ensures f[1027] == ToByte(Sum(page) + f[2] + f[3])
    ensures f[1028] == TAIL
  {
    var low, high := ToByte(index), ToByte(Shr8(index));
    ([HEAD_0, HEAD_1, low, high] + page)[1027 := ToByte(Sum(page) + low + high)] + [TAIL]
  }

  /** The as-written frame loses the last byte of the page: for page 1 of an
      image whose bytes are zero except byte 2047 = 1, the device receives 2
      (the checksum) where the page holds 1. */
  lemma AsWrittenFrameOverwritesLastPageByte()
    ensures var page := Zeros(PAGE_SIZE - 1) + [1];
      && page[PAGE_SIZE - 1] == 1
      && PageFrameAsWritten(1, page)[4 + PAGE_SIZE - 1] == 2
      && PageFrameAsWritten(1, page)[4..4 + PAGE_SIZE] != page
  {
    var page := Zeros(PAGE_SIZE - 1) + [1];
    SumAppend(Zeros(PAGE_SIZE - 1), [1]);
    SumZeros(PAGE_SIZE - 1);
    assert Sum([1]) == 1 by { assert [1][..0] == []; }
    assert ToInt32(1) == 1;
    var f := PageFrameAsWritten(1, page);
    assert f[4..4 + PAGE_SIZE][PAGE_SIZE - 1] == 2;
  }

  // ---------------------------------------------------------------------
  // The loops of setFileName and sendFileData_V1

  /** `let checksum = init; for (...) checksum += bytes[i];` */
  method AddBytes(init: nat, bytes: seq<Byte>) returns (total: nat)
    ensures total == init + Sum(bytes)
  {
    total := init;
    for i := 0 to |bytes|
      invariant total == init + Sum(bytes[..i])
    {
      assert bytes[..i + 1][..i] == bytes[..i];
      total := total + bytes[i];
    }
    assert bytes[..|bytes|] == bytes;
  }

  /** The zero-filled page buffer of `sendFileData_V1`, filled by
      `copy(pageData, 0, offset)` for the last page and by
      `copy(pageData, 0, offset, offset + 1024)` for the others. */
  method BuildPage(image: seq<Byte>, i: nat, pageSum: nat) returns (page: seq<Byte>)
    requires pageSum == PageTotal(|image|) && i < pageSum
    ensures page == Page(image, i)
  {
    var offset := PAGE_SIZE * i;
    var isLastPage := i == pageSum - 1;
    var pageData := new Byte[PAGE_SIZE](_ => 0);
    var count := if isLastPage then |image| - offset else PAGE_SIZE;
    for k := 0 to count
      invariant forall j :: 0 <= j < k ==> pageData[j] == image[offset + j]
      invariant forall j :: k <= j < PAGE_SIZE ==> pageData[j] == 0
    {
      pageData[k] := image[offset + k];
    }
    page := pageData[..];
    forall j | 0 <= j < PAGE_SIZE ensures page[j] == Page(image, i)[j] {
      PageAt(image, i, j);
    }
  }

  /** The frame buffer of `sendFileData_V1`, laid out as `PageFrame`: the
      header and index bytes, the page copied in at offset 4, the checksum
      `(sum + low + high) & 0xFF` and the tail. */
  method BuildPageFrame(index: nat, page: seq<Byte>, pageChecksum: nat) returns (f: seq<Byte>)
    requires |page| == PAGE_SIZE && pageChecksum == Sum(page)
    ensures f == PageFrame(index, page)
  {
    var low, high := ToByte(index), ToByte(Shr8(index));
    var data := new Byte[PAGE_FRAME_SIZE];
    data[0], data[1], data[2], data[3] := HEAD_0, HEAD_1, low, high;
    for i := 0 to PAGE_SIZE
      invariant data[..4] == [HEAD_0, HEAD_1, low, high]
      invariant forall k :: 0 <= k < i ==> data[4 + k] == page[k]
    {
      data[4 + i] := page[i];
    }
    data[PAGE_FRAME_SIZE - 2] := ToByte(pageChecksum + low + high);
    data[PAGE_FRAME_SIZE - 1] := TAIL;
    f := data[..];
    ghost var g := PageFrame(index, page);
    forall k | 0 <= k < |g| ensures f[k] == g[k] {
      if k < 4 {
        assert f[k] == data[..4][k];
      }
    }
  }
}

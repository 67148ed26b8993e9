/** Sending a media file over HTTP, whole or in byte ranges (sections 14.16 and 19.2 of RFC
    2616): the announced Content-Length against what the copying loops write. */
module MediaSender {

  const TWO_TO_64 := 0x1_0000_0000_0000_0000

  /** An absolute range, both positions included. */
  datatype Range = Range(first: nat, last: nat)

  datatype Option<T> = None | Some(value: T)

  predicate Inside(r: Range, size: nat) {
    r.first <= r.last < size < TWO_TO_64
  }

  function Slice(file: string, r: Range): (s: string)
    requires Inside(r, |file|)
    ensures |s| == r.last - r.first + 1
  {
    file[r.first..r.last + 1]
  }

  /** `last - offset + 1` in 64 bits: 0 once the offset has passed the end. */
  function Remaining(last: nat, offset: nat): nat {
    (last - offset + 1) % TWO_TO_64
  }

  lemma RemainingIsExact(last: nat, offset: nat)
    requires offset <= last + 1 && last + 1 < TWO_TO_64
    ensures Remaining(last, offset) == last + 1 - offset
  {
  }

  // ---------------------------------------------------------------- text of the responses

  function Decimal(n: nat): (s: string)
    ensures s != [] && forall c | c in s :: '0' <= c <= '9'
  {
    if n < 10 then [Digit(n)] else Decimal(n / 10) + [Digit(n % 10)]
  }

  function Digit(n: nat): (c: char)
    requires n < 10
    ensures '0' <= c <= '9'
  {
    '0' + n as char
  }

  function ContentRange(r: Range, size: nat): string {
    "bytes " + Decimal(r.first) + "-" + Decimal(r.last) + "/" + Decimal(size)
  }

  function PartHeader(boundary: string, mediaType: string, r: Range, size: nat): string {
    "\r\n--" + boundary + "\r\n"
    + (if mediaType != "" then "Content-Type: " + mediaType + "\r\n" else "")
    + "Content-Range: " + ContentRange(r, size) + "\r\n\r\n"
  }

  function Footer(boundary: string): string {
    "\r\n--" + boundary + "--\r\n"
  }

  /** The parts of a multipart body, without the footer. */
  function Parts(file: string, boundary: string, mediaType: string, rs: seq<Range>): string
    requires forall r | r in rs :: Inside(r, |file|)
  {
    if rs == [] then ""
    else
      var n := |rs| - 1;
      Parts(file, boundary, mediaType, rs[..n]) + PartHeader(boundary, mediaType, rs[n], |file|) + Slice(file, rs[n])
  }

  // ---------------------------------------------------------------- the stream and the file

  /** The response as the client gets it. `contentLength` and `contentRange` are the headers
      set before the body is written. */
  class HttpStream {
    var contentLength: nat
    var contentRange: string
    var body: string
    ghost var cut: bool     // trace: some text was taken only in part
    ghost var failed: bool  // trace: a write to the stream or a read from the file has failed

    constructor ()
      ensures body == "" && !cut && !failed
    {
      contentLength, contentRange, body, cut, failed := 0, "", "", false, false;
    }

    /** Accepts at least one byte, perhaps not all, or fails. */
    method Write(buf: array<char>, size: nat) returns (nbytes: int)
      requires 0 < size <= buf.Length
      modifies this`body, this`failed
      ensures failed == (old(failed) || nbytes < 0)
      ensures nbytes < 0 ==> body == old(body)
      ensures nbytes >= 0 ==> 0 < nbytes <= size && body == old(body) + buf[..nbytes]
    {
      nbytes := *;
      failed := failed || nbytes < 0;
      if nbytes < 0 {
        return;
      }
      if nbytes == 0 || nbytes > size {
        nbytes := size;
      }
      body := body + buf[..nbytes];
    }

    /** Part headers and the footer are handed over in one call each. The sender sees a
        failure, but does not look at how much was taken. */
    method WriteText(text: string) returns (nbytes: int)
      modifies this`body, this`cut, this`failed
      ensures failed == (old(failed) || nbytes < 0)
      ensures nbytes < 0 ==> body == old(body) && cut == old(cut)
      ensures nbytes >= 0 ==> nbytes <= |text| && body == old(body) + text[..nbytes] && cut == (old(cut) || nbytes < |text|)
    {
      nbytes := *;
      failed := failed || nbytes < 0;
      if nbytes < 0 {
        return;
      }
      if nbytes > |text| {
        nbytes := |text|;
      }
      body := body + text[..nbytes];
      cut := cut || nbytes < |text|;
    }
  }

  /** Reads at least one byte of the file while there is one, perhaps fewer than asked for. All
      that happens to the response is that a failure is noted. */
  method ReadAt(hs: HttpStream, file: string, offset: nat, buf: array<char>, reqsize: nat) returns (nbytes: int)
    requires reqsize <= buf.Length
    modifies hs`failed, buf
    ensures hs.failed == (old(hs.failed) || nbytes < 0)
    ensures nbytes >= 0 ==> (nbytes == 0 <==> reqsize == 0 || offset >= |file|)
    ensures nbytes > 0 ==> nbytes <= reqsize && offset + nbytes <= |file| && buf[..nbytes] == file[offset..offset + nbytes]
  {
    nbytes := *;
    hs.failed := hs.failed || nbytes < 0;
    if nbytes < 0 {
      return;
    }
    if reqsize == 0 || offset >= |file| {
      return 0;
    }
    var most := if reqsize < |file| - offset then reqsize else |file| - offset;
    if nbytes == 0 || nbytes > most {
      nbytes := most;
    }
    forall i | 0 <= i < nbytes {
      buf[i] := file[offset + i];
    }
  }

  // ---------------------------------------------------------------- the copying loops

  /** Copy the bytes from `first` to `last` of the file to the stream, a buffer at a time; the
      size of the buffer depends on the platform. */
  method CopyRange(hs: HttpStream, file: string, r: Range, buf: array<char>) returns (err: int)
    requires Inside(r, |file|) && buf.Length > 0 && !hs.failed
    modifies hs`body, hs`failed, buf
    ensures err <= 0 && (err == 0 <==> !hs.failed)
    ensures err == 0 ==> hs.body == old(hs.body) + Slice(file, r)
    ensures Started(old(hs.body), hs.body, Slice(file, r))
  {
    var offset := r.first;
    assert file[r.first..r.first] == "" && old(hs.body) + "" == old(hs.body);
    while true
      invariant r.first <= offset <= r.last + 1 && !hs.failed
      invariant hs.body == old(hs.body) + file[r.first..offset]
      decreases r.last + 1 - offset
    {
      RemainingIsExact(r.last, offset);
      SlicePrefix(old(hs.body), file, r, offset);
      var left := Remaining(r.last, offset);
      var reqsize := if left < buf.Length then left else buf.Length;
      if reqsize == 0 {
        break;
      }
      var nbytes := ReadAt(hs, file, offset, buf, reqsize);
      if nbytes < 0 {
        return nbytes;
      }
      if nbytes == 0 {
        break;
      }
      ghost var got := nbytes;
      nbytes := hs.Write(buf, nbytes);
      if nbytes < 0 {
        return nbytes;
      }
      assert buf[..got][..nbytes] == buf[..nbytes];
      SliceGrows(old(hs.body), file, r.first, offset, got, nbytes);
      offset := offset + nbytes;
    }
    SlicePrefix(old(hs.body), file, r, offset);
    err := 0;
  }

  /** Of the bytes read at `offset`, the first `n` continue what was copied. */
  lemma SliceGrows(before: string, file: string, first: nat, offset: nat, got: nat, n: nat)
    requires first <= offset && n <= got && offset + got <= |file|
    ensures before + file[first..offset] + file[offset..offset + got][..n] == before + file[first..offset + n]
  {
    assert file[offset..offset + got][..n] == file[offset..offset + n];
    assert file[first..offset] + file[offset..offset + n] == file[first..offset + n];
    assert before + file[first..offset] + file[offset..offset + n] == before + (file[first..offset] + file[offset..offset + n]);
  }

  /** Some of `text`, from its beginning, has been added to `before`. */
  predicate Started(before: string, now: string, text: string) {
    before <= now <= before + text
  }

  lemma SlicePrefix(before: string, file: string, r: Range, offset: nat)
    requires Inside(r, |file|) && r.first <= offset <= r.last + 1
    ensures Started(before, before + file[r.first..offset], Slice(file, r))
    ensures offset == r.last + 1 ==> file[r.first..offset] == Slice(file, r)
  {
    assert Slice(file, r)[..offset - r.first] == file[r.first..offset];
    assert (before + Slice(file, r))[..|before| + offset - r.first] == before + file[r.first..offset];
  }

  /** The whole file, whose size is announced. */
  method SendWholeFile(hs: HttpStream, file: string, buf: array<char>) returns (err: int)
    requires |file| < TWO_TO_64 && buf.Length > 0 && hs.body == "" && !hs.failed
    modifies hs, buf
    ensures hs.contentLength == |file|
    ensures err <= 0 && (err == 0 <==> !hs.failed)
    ensures hs.body <= file && (err == 0 ==> hs.body == file)
  {
    hs.contentLength := |file|;
    var offset := 0;
    while true
      invariant 0 <= offset <= |file| && hs.body == file[..offset] && hs.contentLength == |file| && !hs.failed
      decreases |file| - offset
    {
      var reqsize := if |file| - offset < buf.Length then |file| - offset else buf.Length;
      var nbytes := ReadAt(hs, file, offset, buf, reqsize);
      if nbytes < 0 {
        return nbytes;
      }
      if nbytes == 0 {
        break;
      }
      ghost var got := nbytes;
      nbytes := hs.Write(buf, nbytes);
      if nbytes < 0 {
        return nbytes;
      }
      assert buf[..got][..nbytes] == buf[..nbytes];
      SliceGrows("", file, 0, offset, got, nbytes);
      offset := offset + nbytes;
    }
    err := 0;
  }

  /** One range. `abs` is the range in absolute positions, if the conversion accepts it. */
  method SendSingleRange(hs: HttpStream, file: string, abs: Option<Range>, buf: array<char>) returns (err: int)
    requires buf.Length > 0 && hs.body == "" && !hs.failed && (abs.Some? ==> Inside(abs.value, |file|))
    modifies hs, buf
    ensures abs.None? ==> err != 0 && hs.body == ""
    ensures abs.Some? ==>
              && hs.contentLength == |Slice(file, abs.value)| && hs.contentRange == ContentRange(abs.value, |file|)
              && (err == 0 <==> !hs.failed)
              && hs.body <= Slice(file, abs.value) && (err == 0 ==> hs.body == Slice(file, abs.value))
  {
    if abs.None? {
      return -1;
    }
    var r := abs.value;
    RemainingIsExact(r.last, r.first);
    hs.contentLength := Remaining(r.last, r.first);
    hs.contentRange := ContentRange(r, |file|);
    err := CopyRange(hs, file, r, buf);
    assert "" + Slice(file, r) == Slice(file, r);
  }

  ghost predicate AllInside(rs: seq<Range>, size: nat) {
    forall r | r in rs :: Inside(r, size)
  }

  lemma PartsOneMore(file: string, boundary: string, mediaType: string, rs: seq<Range>, i: nat)
    requires i < |rs| && AllInside(rs, |file|)
    ensures AllInside(rs[..i], |file|) && AllInside(rs[..i + 1], |file|) && Inside(rs[i], |file|)
    ensures Parts(file, boundary, mediaType, rs[..i + 1])
         == Parts(file, boundary, mediaType, rs[..i]) + PartHeader(boundary, mediaType, rs[i], |file|) + Slice(file, rs[i])
  {
    assert rs[i] in rs && forall r | r in rs[..i + 1] :: r in rs;
    assert rs[..i + 1][..i] == rs[..i] && rs[..i + 1][i] == rs[i];
  }

  lemma NoneInside(size: nat)
    ensures AllInside([], size)
  {
  }

  lemma PartsAppend(file: string, boundary: string, mediaType: string, rs: seq<Range>, r: Range)
    requires AllInside(rs, |file|) && Inside(r, |file|)
    ensures AllInside(rs + [r], |file|)
    ensures |Parts(file, boundary, mediaType, rs + [r])|
         == |Parts(file, boundary, mediaType, rs)| + |PartHeader(boundary, mediaType, r, |file|)| + (r.last - r.first + 1)
  {
    assert (rs + [r])[..|rs|] == rs;
  }

  lemma NoParts(file: string, boundary: string, mediaType: string)
    ensures Parts(file, boundary, mediaType, []) == ""
  {
  }

  lemma AddModulo(sum: nat, exact: nat, x: nat)
    requires sum == exact % TWO_TO_64
    ensures (sum + x) % TWO_TO_64 == (exact + x) % TWO_TO_64
  {
    assert exact == sum + TWO_TO_64 * (exact / TWO_TO_64);
    assert exact + x == sum + x + TWO_TO_64 * (exact / TWO_TO_64);
  }

  method AddPart(totalSize: nat, headerSize: nat, r: Range, ghost exact: nat, ghost size: nat) returns (total: nat)
    requires totalSize == exact % TWO_TO_64 && Inside(r, size)
    ensures total == (exact + headerSize + (r.last - r.first + 1)) % TWO_TO_64
  {
    RemainingIsExact(r.last, r.first);
    AddModulo(totalSize, exact, headerSize);
    total := (totalSize + headerSize) % TWO_TO_64;
    AddModulo(total, exact + headerSize, Remaining(r.last, r.first));
    total := (total + Remaining(r.last, r.first)) % TWO_TO_64;
  }

  /** The first `n` ranges convert, and have been turned into headers. */
  ghost predicate Prepared(file: string, boundary: string, mediaType: string, abs: seq<Option<Range>>, n: nat,
                           headers: seq<string>, rs: seq<Range>)
  {
    && n <= |abs| && |rs| == |headers| == n && AllInside(rs, |file|)
    && forall i | 0 <= i < n :: abs[i] == Some(rs[i]) && headers[i] == PartHeader(boundary, mediaType, rs[i], |file|)
  }

  lemma PreparedOneMore(file: string, boundary: string, mediaType: string, abs: seq<Option<Range>>, n: nat,
                        headers: seq<string>, rs: seq<Range>)
    requires Prepared(file, boundary, mediaType, abs, n, headers, rs)
    requires n < |abs| && abs[n].Some? && Inside(abs[n].value, |file|)
    ensures Prepared(file, boundary, mediaType, abs, n + 1,
                     headers + [PartHeader(boundary, mediaType, abs[n].value, |file|)], rs + [abs[n].value])
  {
    hide PartHeader, Inside;
  }

  /** The first loop: the headers of the parts, and the total length, in 64 bits. It stops at
      the first range that does not convert. */
  method Prepare(file: string, boundary: string, mediaType: string, abs: seq<Option<Range>>)
    returns (err: int, headers: seq<string>, absRanges: seq<Range>, totalSize: nat)
    requires forall i | 0 <= i < |abs| && abs[i].Some? :: Inside(abs[i].value, |file|)
    ensures err == 0 <==> forall i | 0 <= i < |abs| :: abs[i].Some?
    ensures err == 0 ==>
              && AllInside(absRanges, |file|) && Prepared(file, boundary, mediaType, abs, |abs|, headers, absRanges)
              && totalSize == |Parts(file, boundary, mediaType, absRanges)| % TWO_TO_64
  {
    headers, absRanges, totalSize := [], [], 0;
    hide Parts, PartHeader, Inside, Prepared, AllInside;
    NoneInside(|file|);
    assert |Parts(file, boundary, mediaType, [])| == 0 by { NoParts(file, boundary, mediaType); }
    NonePrepared(file, boundary, mediaType, abs);
    for i := 0 to |abs|
      invariant forall j | 0 <= j < i :: abs[j].Some?
      invariant Prepared(file, boundary, mediaType, abs, i, headers, absRanges) && AllInside(absRanges, |file|)
      invariant totalSize == |Parts(file, boundary, mediaType, absRanges)| % TWO_TO_64
    {
      if abs[i].None? {
        return -1, headers, absRanges, totalSize;
      }
      var r := abs[i].value;
      var h := PartHeader(boundary, mediaType, r, |file|);
      ghost var n := |Parts(file, boundary, mediaType, absRanges)|;
      PreparedOneMore(file, boundary, mediaType, abs, i, headers, absRanges);
      PartsAppend(file, boundary, mediaType, absRanges, r);
      absRanges, headers := absRanges + [r], headers + [h];
      totalSize := AddPart(totalSize, |h|, r, n, |file|);
    }
    err := 0;
  }

  lemma NonePrepared(file: string, boundary: string, mediaType: string, abs: seq<Option<Range>>)
    ensures Prepared(file, boundary, mediaType, abs, 0, [], [])
  {
  }

  lemma {:induction false} PartsPrefix(file: string, boundary: string, mediaType: string, rs: seq<Range>, i: nat)
    requires i <= |rs| && AllInside(rs, |file|)
    ensures AllInside(rs[..i], |file|) && Parts(file, boundary, mediaType, rs[..i]) <= Parts(file, boundary, mediaType, rs)
    decreases |rs| - i
  {
    hide Parts, PartHeader;
    if i == |rs| {
      assert rs[..i] == rs;
    } else {
      PartsOneMore(file, boundary, mediaType, rs, i);
      PartsPrefix(file, boundary, mediaType, rs, i + 1);
    }
  }

  /** What the client has got of `body`: a beginning of it, unless some text was cut short. */
  ghost predicate Sent(hs: HttpStream, body: string)
    reads hs
  {
    |hs.body| <= |body| && (!hs.cut ==> hs.body <= body)
  }

  /** All of `body` has been handed over: the client has it, or, if some text was cut short,
      fewer bytes than that. */
  ghost predicate Finished(hs: HttpStream, body: string)
    reads hs
  {
    if hs.cut then |hs.body| < |body| else hs.body == body
  }

  /** Several ranges, each with its own header, as one multipart body. The length announced is
      that of the body as long as this fits 64 bits, and the body is complete when no call has
      failed and no text was cut short. */
  method SendMultipleRanges(hs: HttpStream, file: string, boundary: string, mediaType: string,
                            abs: seq<Option<Range>>, buf: array<char>)
    returns (err: int, ghost rs: seq<Range>)
    requires |abs| > 1 && buf.Length > 0 && hs.body == "" && !hs.cut && !hs.failed
    requires forall i | 0 <= i < |abs| && abs[i].Some? :: Inside(abs[i].value, |file|)
    modifies hs, buf
    ensures (exists i | 0 <= i < |abs| :: abs[i].None?) ==> err != 0 && hs.body == ""
    ensures (forall i | 0 <= i < |abs| :: abs[i].Some?) ==>
              && |rs| == |abs| && AllInside(rs, |file|) && (forall i | 0 <= i < |abs| :: rs[i] == abs[i].value)
              && var body := Parts(file, boundary, mediaType, rs) + Footer(boundary);
                 && hs.contentLength == |body| % TWO_TO_64
                 && (hs.contentLength == |body| <==> |body| < TWO_TO_64)
                 && Sent(hs, body) && (err == 0 ==> Finished(hs, body)) && (err == 0 <==> !hs.failed)
  {
    hide Parts, PartHeader;
    var headers, absRanges, totalSize;
    err, headers, absRanges, totalSize := Prepare(file, boundary, mediaType, abs);
    rs := absRanges;
    if err != 0 {
      return;
    }
    var footer := Footer(boundary);
    AddModulo(totalSize, |Parts(file, boundary, mediaType, rs)|, |footer|);
    totalSize := (totalSize + |footer|) % TWO_TO_64;
    hs.contentLength := totalSize;
    err := WriteParts(hs, file, boundary, mediaType, headers, absRanges, buf);
    if err != 0 {
      return;
    }
    var nbytes := hs.WriteText(footer);
    err := if nbytes < 0 then nbytes else 0;
    assert footer[..|footer|] == footer;
  }

  method WriteParts(hs: HttpStream, file: string, boundary: string, mediaType: string,
                    headers: seq<string>, absRanges: seq<Range>, buf: array<char>) returns (err: int)
    requires buf.Length > 0 && hs.body == "" && !hs.cut && !hs.failed && |headers| == |absRanges| && AllInside(absRanges, |file|)
    requires forall i | 0 <= i < |headers| :: headers[i] == PartHeader(boundary, mediaType, absRanges[i], |file|)
    modifies hs`body, hs`cut, hs`failed, buf
    ensures err <= 0 && (err == 0 <==> !hs.failed) && Sent(hs, Parts(file, boundary, mediaType, absRanges))
    ensures err == 0 ==> Finished(hs, Parts(file, boundary, mediaType, absRanges))
  {
    hide Parts, PartHeader;
    assert absRanges[..0] == [] && Parts(file, boundary, mediaType, []) == "" by { NoParts(file, boundary, mediaType); }
    for i := 0 to |absRanges|
      invariant AllInside(absRanges[..i], |file|) && !hs.failed
      invariant Finished(hs, Parts(file, boundary, mediaType, absRanges[..i]))
    {
      PartsOneMore(file, boundary, mediaType, absRanges, i);
      PartsPrefix(file, boundary, mediaType, absRanges, i);
      PartsPrefix(file, boundary, mediaType, absRanges, i + 1);
      var nbytes := hs.WriteText(headers[i]);
      if nbytes < 0 {
        return nbytes;
      }
      assert headers[i][..|headers[i]|] == headers[i];
      err := CopyRange(hs, file, absRanges[i], buf);
      if err < 0 {
        return;
      }
    }
    assert absRanges[..|absRanges|] == absRanges;
    err := 0;
  }

  // ---------------------------------------------------------------- what the headers tell

  /** What a text of digits stands for. */
  function Value(s: string): int {
    if s == "" then 0 else 10 * Value(s[..|s| - 1]) + (s[|s| - 1] as int - '0' as int)
  }

  lemma {:induction false} ValueOfDecimal(n: nat)
    ensures Value(Decimal(n)) == n
    ensures |Decimal(n)| > 1 ==> Decimal(n)[0] != '0'
  {
    var s := Decimal(n);
    if n >= 10 {
      ValueOfDecimal(n / 10);
      assert s[..|s| - 1] == Decimal(n / 10) && s[|s| - 1] == Digit(n % 10);
      if n < 100 {
        assert Decimal(n / 10) == [Digit(n / 10)];
      }
    } else {
      assert s[..|s| - 1] == "";
    }
  }

  lemma DecimalInjective(a: nat, b: nat)
    requires Decimal(a) == Decimal(b)
    ensures a == b
  {
    ValueOfDecimal(a);
    ValueOfDecimal(b);
  }

  /** The text up to the first `d`, and what is behind it. */
  function CutAt(s: string, d: char): (string, string) {
    if s == "" || s[0] == d then ("", if s == "" then "" else s[1..])
    else
      var (a, b) := CutAt(s[1..], d);
      ([s[0]] + a, b)
  }

  lemma {:induction false} CutThere(a: string, d: char, b: string)
    requires forall c | c in a :: c != d
    ensures CutAt(a + [d] + b, d) == (a, b)
  {
    var s := a + [d] + b;
    if a == "" {
      assert s[0] == d && s[1..] == b;
    } else {
      assert a[0] in a && forall c | c in a[1..] :: c in a;
      CutThere(a[1..], d, b);
      assert s[0] != d && [a[0]] + a[1..] == a;
      assert s[1..] == a[1..] + [d] + b && s[0] == a[0];
    }
  }

  /** How a client reads a Content-Range: the unit, first and last position, and the size. */
  function ReadContentRange(s: string): (string, int, int, int) {
    var (bytesUnit, rest) := CutAt(s, ' ');
    var (first, rest1) := CutAt(rest, '-');
    var (last, size) := CutAt(rest1, '/');
    (bytesUnit, Value(first), Value(last), Value(size))
  }

  lemma NoDigit(s: string, d: char)
    requires (forall c | c in s :: '0' <= c <= '9') && !('0' <= d <= '9')
    ensures forall c | c in s :: c != d
  {
  }

  /** A client that reads it so gets exactly what was sent. */
  lemma ContentRangeReads(r: Range, size: nat)
    ensures ReadContentRange(ContentRange(r, size)) == ("bytes", r.first, r.last, size)
  {
    var f, l, z := Decimal(r.first), Decimal(r.last), Decimal(size);
    var rest1 := l + "/" + z;
    var rest := f + "-" + rest1;
    assert ContentRange(r, size) == "bytes" + " " + rest;
    CutThere("bytes", ' ', rest);
    NoDigit(f, '-');
    CutThere(f, '-', rest1);
    NoDigit(l, '/');
    CutThere(l, '/', z);
    ValueOfDecimal(r.first);
    ValueOfDecimal(r.last);
    ValueOfDecimal(size);
    hide CutAt, Decimal, Value;
  }

  /** Each part stands where the lengths of those before it say: its header, then its slice. */
  lemma PartAt(file: string, boundary: string, mediaType: string, rs: seq<Range>, i: nat)
    requires i < |rs| && AllInside(rs, |file|)
    ensures AllInside(rs[..i], |file|) && Inside(rs[i], |file|)
    ensures var o := |Parts(file, boundary, mediaType, rs[..i])|;
            var h := PartHeader(boundary, mediaType, rs[i], |file|);
            && o + |h| + |Slice(file, rs[i])| <= |Parts(file, boundary, mediaType, rs)|
            && Parts(file, boundary, mediaType, rs)[o..o + |h|] == h
            && Parts(file, boundary, mediaType, rs)[o + |h|..o + |h| + |Slice(file, rs[i])|] == Slice(file, rs[i])
  {
    hide Parts, PartHeader;
    PartsOneMore(file, boundary, mediaType, rs, i);
    PartsPrefix(file, boundary, mediaType, rs, i + 1);
    ThreeInARow(Parts(file, boundary, mediaType, rs[..i]), PartHeader(boundary, mediaType, rs[i], |file|), Slice(file, rs[i]),
                Parts(file, boundary, mediaType, rs));
  }

  lemma ThreeInARow(p: string, h: string, x: string, all: string)
    requires p + h + x <= all
    ensures all[|p|..|p| + |h|] == h && all[|p| + |h|..|p| + |h| + |x|] == x
  {
    assert all[..|p + h + x|] == p + h + x;
    assert (p + h + x)[|p|..|p| + |h|] == h && (p + h + x)[|p| + |h|..] == x;
  }

  /** A slice holds the bytes from the first to the last position. */
  lemma SliceHolds(file: string, r: Range, k: nat)
    requires Inside(r, |file|) && r.first <= k <= r.last
    ensures Slice(file, r)[k - r.first] == file[k] && |Slice(file, r)| == r.last + 1 - r.first
  {
  }

  /** The delimiters, as section 19.2 of RFC 2616 shows them. */
  lemma FooterLooksRight()
    ensures Footer("B") == "\r\n--B--\r\n"
  {
  }

  lemma PartLooksRight()
    ensures PartHeader("B", "a/b", Range(0, 4), 10) == "\r\n--B\r\nContent-Type: a/b\r\n" + "Content-Range: bytes 0-4/10\r\n\r\n"
  {
    var range := ContentRange(Range(0, 4), 10);
    assert range == "bytes 0-4/10" by { RangeLooksRight(); }
    hide ContentRange;
    var head := "\r\n--" + "B" + "\r\n" + ("Content-Type: " + "a/b" + "\r\n");
    assert head == "\r\n--B\r\nContent-Type: a/b\r\n";
    assert PartHeader("B", "a/b", Range(0, 4), 10) == head + ("Content-Range: " + range + "\r\n\r\n");
    assert "Content-Range: " + "bytes 0-4/10" + "\r\n\r\n" == "Content-Range: bytes 0-4/10\r\n\r\n";
  }

  lemma PartWithoutType()
    ensures PartHeader("B", "", Range(0, 4), 10) == "\r\n--B\r\n" + "Content-Range: bytes 0-4/10\r\n\r\n"
  {
    var range := ContentRange(Range(0, 4), 10);
    assert range == "bytes 0-4/10" by { RangeLooksRight(); }
    hide ContentRange;
    var head := "\r\n--" + "B" + "\r\n" + "";
    assert head == "\r\n--B\r\n";
    assert PartHeader("B", "", Range(0, 4), 10) == head + ("Content-Range: " + range + "\r\n\r\n");
    assert "Content-Range: " + "bytes 0-4/10" + "\r\n\r\n" == "Content-Range: bytes 0-4/10\r\n\r\n";
  }

  lemma RangeLooksRight()
    ensures ContentRange(Range(0, 4), 10) == "bytes 0-4/10"
  {
    assert Decimal(0) == "0" && Decimal(4) == "4" && Decimal(1) == "1" && Decimal(10) == "10";
  }

  /** Two texts that split at the first character that is no digit split alike. */
  lemma SplitAtDelimiter(a: string, b: string, x: string, y: string, d: char)
    requires (forall c | c in a :: '0' <= c <= '9') && (forall c | c in b :: '0' <= c <= '9')
    requires !('0' <= d <= '9') && a + [d] + x == b + [d] + y
    ensures a == b && x == y
  {
    var l := a + [d] + x;
    assert l[|a|] == d && l[|b|] == d;
    forall j | 0 <= j < |a| ensures l[j] != d {
      assert l[j] == a[j] && a[j] in a;
    }
    forall j | 0 <= j < |b| ensures l[j] != d {
      assert l[j] == b[j] && b[j] in b;
    }
    assert |a| == |b|;
    assert l[..|a|] == a && l[..|b|] == b && l[|a| + 1..] == x && l[|b| + 1..] == y;
  }

  /** From the Content-Range of a part the client can tell which bytes it holds, of how many. */
  lemma ContentRangeIdentifies(r: Range, q: Range, size: nat, size2: nat)
    requires ContentRange(r, size) == ContentRange(q, size2)
    ensures r == q && size == size2
  {
    var x := Decimal(r.last) + "/" + Decimal(size);
    var y := Decimal(q.last) + "/" + Decimal(size2);
    var s, t := Decimal(r.first) + "-" + x, Decimal(q.first) + "-" + y;
    assert ContentRange(r, size) == "bytes " + s && ContentRange(q, size2) == "bytes " + t;
    assert ("bytes " + s)[6..] == s && ("bytes " + t)[6..] == t;
    SplitAtDelimiter(Decimal(r.first), Decimal(q.first), x, y, '-');
    SplitAtDelimiter(Decimal(r.last), Decimal(q.last), Decimal(size), Decimal(size2), '/');
    DecimalInjective(r.first, q.first);
    DecimalInjective(r.last, q.last);
    DecimalInjective(size, size2);
  }
}

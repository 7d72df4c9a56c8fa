/** The runs of printable characters that tools/srchtools/srch_strings.c is meant to print. */
module GraphicRuns {
  import opened Unsigned

  /** The -e option: character size and endianness. */
  datatype Encoding = SevenBit | EightBit | Big16 | Little16 | Big32 | Little32

  function Bytes(enc: Encoding): nat {
    match enc
    case SevenBit | EightBit => 1
    case Big16 | Little16 => 2
    case Big32 | Little32 => 4
  }

  /** The length of k characters. */
  function Scale(enc: Encoding, k: nat): nat {
    match enc
    case SevenBit | EightBit => k
    case Big16 | Little16 => 2 * k
    case Big32 | Little32 => 4 * k
  }

  function Decode(enc: Encoding, buf: seq<Byte>): nat
    requires |buf| == Bytes(enc)
  {
    match enc
    case SevenBit | EightBit => buf[0]
    case Big16 => Pair(buf[0], buf[1])
    case Little16 => Pair(buf[1], buf[0])
    case Big32 => Pair(buf[0], buf[1]) * 0x1_0000 + Pair(buf[2], buf[3])
    case Little32 => Pair(buf[3], buf[2]) * 0x1_0000 + Pair(buf[1], buf[0])
  }

  function Pair(high: nat, low: nat): nat { high * 0x100 + low }

  /** STRING_ISGRAPHIC: a tab, a printing ASCII character, or any high byte in the 8-bit encoding. */
  predicate Graphic(enc: Encoding, c: int) {
    0 <= c <= 255 && (c == 9 || 32 <= c <= 126 || (enc == EightBit && c > 127))
  }

  /** The characters of a byte stream; bytes left over at the end make none. */
  function Units(enc: Encoding, data: seq<Byte>): seq<nat>
    decreases |data|
  {
    if |data| < Bytes(enc) then [] else [Decode(enc, data[..Bytes(enc)])] + Units(enc, data[Bytes(enc)..])
  }

  /** What is searched: the encoding, the shortest string of interest, the address of the first byte,
      and the address where no string may start any more, if it is not 0. */
  datatype Search = Search(enc: Encoding, stringMin: nat, address: nat, stopPoint: nat) {
    predicate MayStart(k: nat) { stopPoint == 0 || address + Scale(enc, k) < stopPoint }
  }

  /** The characters from start up to end. */
  datatype Extent = Extent(start: nat, end: nat)

  /** A run of graphic characters that cannot be made longer at either end. */
  predicate MaximalRun(enc: Encoding, units: seq<nat>, x: Extent) {
    && x.start < x.end <= |units|
    && (forall i :: x.start <= i < x.end ==> Graphic(enc, units[i]))
    && (x.start > 0 ==> !Graphic(enc, units[x.start - 1]))
    && (x.end < |units| ==> !Graphic(enc, units[x.end]))
  }

  /** The runs to be printed. */
  predicate Wanted(s: Search, units: seq<nat>, x: Extent) {
    MaximalRun(s.enc, units, x) && x.end - x.start >= s.stringMin && s.MayStart(x.start)
  }

  predicate Ordered(extents: seq<Extent>) {
    forall i, j :: 0 <= i < j < |extents| ==> extents[i].start < extents[j].start
  }

  function RunEnd(enc: Encoding, units: seq<nat>, k: nat): (end: nat)
    requires k <= |units|
    ensures k <= end <= |units|
    ensures forall i :: k <= i < end ==> Graphic(enc, units[i])
    ensures end < |units| ==> !Graphic(enc, units[end])
    decreases |units| - k
  {
    if k < |units| && Graphic(enc, units[k]) then RunEnd(enc, units, k + 1) else k
  }

  /** The runs from position k on, found from left to right. */
  function StringsFrom(s: Search, units: seq<nat>, k: nat): (extents: seq<Extent>)
    ensures forall x <- extents :: x.start <= x.end <= |units|
    decreases if k < |units| then |units| - k else 0
  {
    if k >= |units| || !s.MayStart(k) then []
    else
      var end := RunEnd(s.enc, units, k);
      (if end - k >= s.stringMin then [Extent(k, end)] else []) + StringsFrom(s, units, end + 1)
  }

  /** Position k is where a run may begin. */
  predicate Boundary(enc: Encoding, units: seq<nat>, k: nat) {
    0 < k <= |units| ==> !Graphic(enc, units[k - 1])
  }

  lemma ScaleMonotone(enc: Encoding, j: nat, k: nat)
    ensures j <= k ==> Scale(enc, j) <= Scale(enc, k)
    ensures Scale(enc, k + 1) == Scale(enc, k) + Bytes(enc)
  {
  }

  /** A maximal run at or after a boundary is the run at the boundary or lies beyond it. */
  lemma NextRun(enc: Encoding, units: seq<nat>, k: nat, x: Extent)
    requires k < |units| && Boundary(enc, units, k)
    ensures MaximalRun(enc, units, x) && x.start >= k
       <==> || (x == Extent(k, RunEnd(enc, units, k)) && k < RunEnd(enc, units, k))
            || (MaximalRun(enc, units, x) && x.start >= RunEnd(enc, units, k) + 1)
  {
    var end := RunEnd(enc, units, k);
    if MaximalRun(enc, units, x) && k <= x.start <= end {
      assert x.start < |units| && Graphic(enc, units[x.start]);
    }
  }

  /** The list from a boundary on holds exactly the wanted runs from there on, in order. */
  lemma {:induction false} StringsFromExact(s: Search, units: seq<nat>, k: nat)
    requires s.stringMin >= 1 && Boundary(s.enc, units, k)
    ensures Ordered(StringsFrom(s, units, k))
    ensures forall x :: x in StringsFrom(s, units, k) <==> Wanted(s, units, x) && x.start >= k
    decreases if k < |units| then |units| - k else 0
  {
    if k >= |units| {
    } else if !s.MayStart(k) {
      NothingStarts(s, units, k);
    } else {
      var end := RunEnd(s.enc, units, k);
      hide RunEnd, Wanted;
      StringsFromExact(s, units, end + 1);
      StringsStep(s, units, k, StringsFrom(s, units, end + 1));
    }
  }

  lemma NothingStarts(s: Search, units: seq<nat>, k: nat)
    requires !s.MayStart(k)
    ensures forall x :: Wanted(s, units, x) ==> x.start < k
  {
    forall x | Wanted(s, units, x) ensures x.start < k {
      ScaleMonotone(s.enc, k, x.start);
    }
  }

  /** One run in front of the list of the later ones. */
  lemma StringsStep(s: Search, units: seq<nat>, k: nat, rest: seq<Extent>)
    requires s.stringMin >= 1 && Boundary(s.enc, units, k) && k < |units| && s.MayStart(k) && Ordered(rest)
    requires forall x :: x in rest <==> Wanted(s, units, x) && x.start >= RunEnd(s.enc, units, k) + 1
    ensures var end := RunEnd(s.enc, units, k);
            var all := (if end - k >= s.stringMin then [Extent(k, end)] else []) + rest;
            Ordered(all) && forall x :: x in all <==> Wanted(s, units, x) && x.start >= k
  {
    var end := RunEnd(s.enc, units, k);
    var all := (if end - k >= s.stringMin then [Extent(k, end)] else []) + rest;
    assert forall i :: 0 <= i < |rest| ==> rest[i] in rest;
    forall x ensures x in all <==> Wanted(s, units, x) && x.start >= k {
      NextRun(s.enc, units, k, x);
      hide RunEnd, MaximalRun;
    }
    hide RunEnd, Wanted;
  }

  lemma HasElement(b: seq<Extent>)
    ensures b == [] || exists x :: x in b
  {
    if b != [] {
      assert b[0] in b;
    }
  }

  /** An ordered list is determined by its elements. */
  lemma {:induction false} OrderedIsDetermined(a: seq<Extent>, b: seq<Extent>)
    requires Ordered(a) && Ordered(b) && forall x :: x in a <==> x in b
    ensures a == b
    decreases |a|
  {
    if a == [] {
      HasElement(b);
    } else {
      assert a[0] in b && b[0] in a;
      assert a[0] == b[0];
      forall x ensures x in a[1..] <==> x in b[1..] {
        assert x in a[1..] <==> x in a && x != a[0];
        assert x in b[1..] <==> x in b && x != b[0];
      }
      OrderedIsDetermined(a[1..], b[1..]);
    }
  }

  /** The printed strings are exactly the maximal runs that are long enough and start early enough. */
  lemma StringsExact(s: Search, units: seq<nat>, extents: seq<Extent>)
    requires s.stringMin >= 1
    ensures extents == StringsFrom(s, units, 0)
       <==> Ordered(extents) && forall x :: x in extents <==> Wanted(s, units, x)
  {
    StringsFromExact(s, units, 0);
    if Ordered(extents) && forall x :: x in extents <==> Wanted(s, units, x) {
      OrderedIsDetermined(extents, StringsFrom(s, units, 0));
    }
  }
}

/** The scanner of tools/srchtools/srch_strings.c. */
module StringScanner {
  import opened Options
  import opened Unsigned
  import opened GraphicRuns

  const EOF := -1

  /** A printed string and the address of its first byte. */
  datatype Found = Found(start: nat, text: seq<nat>)

  function FoundAt(s: Search, units: seq<nat>, x: Extent): Found
    requires x.start <= x.end <= |units|
  {
    Found(s.address + Scale(s.enc, x.start), units[x.start..x.end])
  }

  /** A buffer of characters that come before a stream, and the address of the next byte. */
  class Input {
    var magic: seq<Byte>
    var stream: Option<seq<Byte>>
    var address: nat

    ghost function Rest(): seq<Byte>
      reads this
    {
      magic + if stream.Some? then stream.value else []
    }

    constructor (magic: seq<Byte>, stream: Option<seq<Byte>>, address: nat)
      ensures Rest() == magic + if stream.Some? then stream.value else []
      ensures this.address == address
    {
      this.magic, this.stream, this.address := magic, stream, address;
    }

    method ReadByte() returns (c: int)
      modifies this
      ensures c == EOF <==> old(Rest()) == []
      ensures c == EOF ==> Rest() == [] && address == old(address)
      ensures c != EOF ==> 0 <= c < 256 && old(Rest()) == [c] + Rest() && address == old(address) + 1
    {
      if |magic| > 0 {
        c := magic[0];
        magic := magic[1..];
      } else {
        if stream.None? || |stream.value| == 0 {
          return EOF;
        }
        c := stream.value[0];
        stream := Some(stream.value[1..]);
      }
      address := address + 1;
    }

    /** get_char: the next character, or EOF when there are not enough bytes for one. */
    method GetChar(enc: Encoding) returns (r: int)
      modifies this
      ensures Units(enc, old(Rest())) == [] ==> r == EOF && Rest() == []
      ensures Units(enc, old(Rest())) != [] ==> [r] + Units(enc, Rest()) == Units(enc, old(Rest()))
      ensures r != EOF ==> address == old(address) + Bytes(enc) && |Rest()| < |old(Rest())|
      ensures |Rest()| <= |old(Rest())| && address + |Rest()| == old(address + |Rest()|)
    {
      var buf: seq<Byte> := [];
      ghost var data := Rest();
      assert Rest() == data[0..];
      for i := 0 to Bytes(enc)
        invariant i <= |data| && buf == data[..i] && Rest() == data[i..] && address == old(address) + i
      {
        hide *;
        var c := ReadByte();
        if c == EOF {
          TooShort(enc, data);
          return EOF;
        }
        OneByteOn(data, i, c, Rest());
        buf := buf + [c];
      }
      r := Decode(enc, buf);
    }
  }

  lemma OneByteOn(data: seq<Byte>, i: nat, c: int, rest: seq<Byte>)
    requires i <= |data| && 0 <= c < 256 && data[i..] == [c] + rest
    ensures i < |data| && data[..i] + [c] == data[..i + 1] && rest == data[i + 1..]
  {
    assert data[i..][0] == c && data[i..][1..] == rest;
  }

  function FoundAll(s: Search, units: seq<nat>, extents: seq<Extent>): seq<Found>
    requires forall x <- extents :: x.start <= x.end <= |units|
  {
    seq(|extents|, i requires 0 <= i < |extents| => FoundAt(s, units, extents[i]))
  }

  /** What is to be printed from position k on. */
  function Output(s: Search, units: seq<nat>, k: nat): seq<Found> {
    FoundAll(s, units, StringsFrom(s, units, k))
  }

  /** The characters from k up to end are graphic, and no more follow. */
  ghost predicate RunFrom(enc: Encoding, units: seq<nat>, k: nat, end: nat) {
    && GraphicBetween(enc, units, k, end)
    && (end < |units| ==> !Graphic(enc, units[end]))
  }

  ghost predicate GraphicBetween(enc: Encoding, units: seq<nat>, k: nat, end: nat) {
    k <= end <= |units| && forall i :: k <= i < end ==> Graphic(enc, units[i])
  }

  lemma RunEndIs(enc: Encoding, units: seq<nat>, k: nat, end: nat)
    requires RunFrom(enc, units, k, end)
    ensures RunEnd(enc, units, k) == end
  {
    var found := RunEnd(enc, units, k);
    hide RunEnd, Graphic;
  }

  lemma NothingLeft(s: Search, units: seq<nat>, k: nat)
    requires k >= |units| || !s.MayStart(k)
    ensures StringsFrom(s, units, k) == [] && Output(s, units, k) == []
  {
  }

  lemma ShortRun(s: Search, units: seq<nat>, k: nat, end: nat)
    requires RunFrom(s.enc, units, k, end) && end - k < s.stringMin && (k < |units| ==> s.MayStart(k))
    ensures StringsFrom(s, units, k) == StringsFrom(s, units, end + 1)
    ensures Output(s, units, k) == Output(s, units, end + 1)
  {
    RunEndIs(s.enc, units, k, end);
    hide RunEnd;
  }

  lemma LongRun(s: Search, units: seq<nat>, k: nat, end: nat)
    requires RunFrom(s.enc, units, k, end) && end - k >= s.stringMin >= 1 && s.MayStart(k)
    ensures StringsFrom(s, units, k) == [Extent(k, end)] + StringsFrom(s, units, end + 1)
    ensures Output(s, units, k) == [FoundAt(s, units, Extent(k, end))] + Output(s, units, end + 1)
  {
    RunEndIs(s.enc, units, k, end);
    hide RunEnd, FoundAt;
    var rest := StringsFrom(s, units, end + 1);
    assert StringsFrom(s, units, k) == [Extent(k, end)] + rest;
    hide StringsFrom;
  }

  /** The input, of size bytes in all, stands before character k; at the end, some bytes that make
      no character may have been read. */
  ghost predicate Before(input: Input, s: Search, units: seq<nat>, size: nat, k: nat)
    reads input
  {
    && k <= |units| && Units(s.enc, input.Rest()) == units[k..]
    && input.address + |input.Rest()| == s.address + size
    && (input.address == s.address + Scale(s.enc, k) || (k == |units| && input.Rest() == []))
  }

  /** Reads character k, or finds the end of the input. */
  method NextChar(input: Input, s: Search, ghost units: seq<nat>, ghost size: nat, ghost k: nat) returns (c: int)
    requires Before(input, s, units, size, k)
    modifies input
    ensures c == EOF <==> k == |units|
    ensures k == |units| ==> Before(input, s, units, size, k) && input.address == s.address + size
    ensures k < |units| ==> c == units[k] && Before(input, s, units, size, k + 1)
    ensures k < |units| ==> input.address == s.address + Scale(s.enc, k + 1)
    ensures |input.Rest()| <= |old(input.Rest())| && (k < |units| ==> |input.Rest()| < |old(input.Rest())|)
  {
    ghost var rest := Units(s.enc, input.Rest());
    ScaleMonotone(s.enc, k, k + 1);
    NoUnits(s.enc);
    hide Units, Scale;
    c := input.GetChar(s.enc);
    if k < |units| {
      assert rest[0] == units[k] && rest[1..] == units[k + 1..];
      assert ([c] + Units(s.enc, input.Rest()))[1..] == Units(s.enc, input.Rest());
    }
  }

  lemma NoUnits(enc: Encoding)
    ensures Units(enc, []) == []
  {
  }

  /** The characters from k up to end are graphic and are the ones collected. */
  ghost predicate Collected(enc: Encoding, units: seq<nat>, k: nat, end: nat, buf: seq<nat>) {
    GraphicBetween(enc, units, k, end) && buf == units[k..end]
  }

  lemma CollectNone(enc: Encoding, units: seq<nat>, k: nat)
    requires k <= |units|
    ensures Collected(enc, units, k, k, [])
  {
  }

  lemma Collect(enc: Encoding, units: seq<nat>, k: nat, end: nat, buf: seq<nat>)
    requires Collected(enc, units, k, end, buf) && end < |units|
    ensures Graphic(enc, units[end]) ==> Collected(enc, units, k, end + 1, buf + [units[end]])
    ensures !Graphic(enc, units[end]) ==> RunFrom(enc, units, k, end)
  {
  }

  lemma CollectedAll(enc: Encoding, units: seq<nat>, k: nat, buf: seq<nat>)
    requires Collected(enc, units, k, |units|, buf)
    ensures RunFrom(enc, units, k, |units|)
  {
  }

  lemma BeforeIs(input: Input, s: Search, units: seq<nat>, size: nat, k: nat)
    requires Before(input, s, units, size, k) && (s.stopPoint == 0 || input.address < s.stopPoint)
    ensures k <= |units| && (k < |units| ==> input.address == s.address + Scale(s.enc, k) && s.MayStart(k))
  {
  }

  // ----- the buffer

  /** The allocated buffer, and whether it was ever used or released again after its release. */
  class TextBuffer {
    var chars: seq<nat>
    var released: bool
    var misused: bool

    /** malloc, which succeeds. */
    constructor ()
      ensures !released && !misused
    {
      chars, released, misused := [], false, false;
    }

    /** buf[i] = c. */
    method Store(i: nat, c: nat)
      requires i <= |chars|
      modifies this
      ensures chars == old(chars[..i]) + [c]
      ensures misused == (old(misused) || old(released)) && released == old(released)
    {
      misused := misused || released;
      chars := chars[..i] + [c];
    }

    /** The first n characters, for fputs. */
    method Text(n: nat) returns (text: seq<nat>)
      requires n <= |chars|
      modifies this`misused
      ensures text == chars[..n]
      ensures misused == (old(misused) || released)
    {
      misused := misused || released;
      text := chars[..n];
    }

    /** free. */
    method Release()
      modifies this`released, this`misused
      ensures released && misused == (old(misused) || old(released))
    {
      misused := misused || released;
      released := true;
    }
  }

  /** The next graphic character from k on, or the end. */
  function NextGraphic(enc: Encoding, units: seq<nat>, k: nat): (q: nat)
    requires k <= |units|
    ensures k <= q <= |units|
    ensures forall i :: k <= i < q ==> !Graphic(enc, units[i])
    ensures q < |units| ==> Graphic(enc, units[q])
    decreases |units| - k
  {
    if k < |units| && !Graphic(enc, units[k]) then NextGraphic(enc, units, k + 1) else k
  }

  /** From character k on, the search comes to a graphic character or to the end of the input before
      it comes to the stop point. */
  predicate GoesOn(s: Search, units: seq<nat>, k: nat, address: nat)
    requires k <= |units|
  {
    if k == |units| then s.stopPoint == 0 || address < s.stopPoint else s.MayStart(NextGraphic(s.enc, units, k))
  }

  /** Where the search goes on behind a run that ends at end: at the end of the input all bytes have been read. */
  predicate GoesOnBehind(s: Search, units: seq<nat>, size: nat, end: nat)
    requires end <= |units|
  {
    if end == |units| then GoesOn(s, units, end, s.address + size)
    else GoesOn(s, units, end + 1, s.address + Scale(s.enc, end + 1))
  }

  /** The buffer is used or released again after its release: a run is printed, and the search goes on behind it. */
  predicate Misuse(s: Search, units: seq<nat>, size: nat) {
    var runs := StringsFrom(s, units, 0);
    runs != [] && GoesOnBehind(s, units, size, runs[0].end)
  }

  // ----- when the buffer is misused

  /** Without a stop point, as both callers pass it, the buffer is misused exactly when any string is to be printed. */
  lemma MisuseWithoutStop(s: Search, units: seq<nat>, size: nat)
    requires s.stringMin >= 1 && s.stopPoint == 0
    ensures Misuse(s, units, size) <==> exists x :: Wanted(s, units, x)
  {
    StringsFromExact(s, units, 0);
    HasElement(StringsFrom(s, units, 0));
    var runs := StringsFrom(s, units, 0);
    hide StringsFrom, Wanted, NextGraphic;
    if runs != [] {
      assert runs[0] in runs;
    }
  }

  /** Behind a run the stop point is reached before any graphic character and before the end of the input. */
  predicate StopsQuietly(s: Search, units: seq<nat>, size: nat, end: nat)
    requires end <= |units|
  {
    && s.stopPoint != 0
    && if end == |units| then s.stopPoint <= s.address + size
       else exists k :: end < k <= |units| && !s.MayStart(k) && forall i :: end < i < k ==> !Graphic(s.enc, units[i])
  }

  ghost predicate FirstWanted(s: Search, units: seq<nat>, x: Extent) {
    Wanted(s, units, x) && forall y :: Wanted(s, units, y) ==> x.start <= y.start
  }

  /** With any stop point, the buffer is misused exactly when there is a first string to be printed
      and the search does not stop quietly behind it. */
  lemma MisuseExactly(s: Search, units: seq<nat>, size: nat)
    requires s.stringMin >= 1
    ensures Misuse(s, units, size)
       <==> exists x :: FirstWanted(s, units, x) && x.end <= |units| && !StopsQuietly(s, units, size, x.end)
  {
    StringsFromExact(s, units, 0);
    HasElement(StringsFrom(s, units, 0));
    var runs := StringsFrom(s, units, 0);
    hide StringsFrom, Wanted;
    if runs == [] {
      assert forall x :: !Wanted(s, units, x);
    } else {
      assert forall y :: y in runs ==> runs[0].start <= y.start;
      assert runs[0] in runs && FirstWanted(s, units, runs[0]);
      forall x | FirstWanted(s, units, x) ensures x == runs[0] {
        var i :| 0 <= i < |runs| && runs[i] == x;
      }
      GoesOnExactly(s, units, size, runs[0].end);
      hide GoesOnBehind, StopsQuietly, FirstWanted;
    }
  }

  lemma GoesOnExactly(s: Search, units: seq<nat>, size: nat, end: nat)
    requires end <= |units|
    ensures GoesOnBehind(s, units, size, end) <==> !StopsQuietly(s, units, size, end)
  {
    if end < |units| {
      var q := NextGraphic(s.enc, units, end + 1);
      hide NextGraphic;
      forall k | end < k <= |units| && !s.MayStart(k) && forall i :: end < i < k ==> !Graphic(s.enc, units[i])
        ensures !s.MayStart(q)
      {
        assert k <= q;
        ScaleMonotone(s.enc, k, q);
      }
      assert GoesOnBehind(s, units, size, end) == s.MayStart(q);
      hide Graphic, Scale, GoesOnBehind;
      assert forall i :: end < i < q ==> !Graphic(s.enc, units[i]);
      assert !s.MayStart(q) ==> s.stopPoint != 0;
    }
  }

  lemma {:induction false} OneByteUnits(data: seq<Byte>)
    ensures Units(SevenBit, data) == data
    decreases |data|
  {
    if data != [] {
      OneByteUnits(data[1..]);
      assert data == [data[0]] + data[1..];
    }
  }

  /** One string of four letters and nothing else: the buffer is released when it is printed, and
      again at the end of the input. */
  lemma OneStringMisuses()
    ensures var (s, data) := (Search(SevenBit, 4, 0, 0), [0x61, 0x62, 0x63, 0x64]);
            Misuse(s, Units(SevenBit, data), |data|)
  {
    var s, data: seq<Byte> := Search(SevenBit, 4, 0, 0), [0x61, 0x62, 0x63, 0x64];
    OneByteUnits(data);
    assert Wanted(s, Units(SevenBit, data), Extent(0, 4));
    MisuseWithoutStop(s, Units(SevenBit, data), |data|);
  }

  lemma NextGraphicStep(s: Search, units: seq<nat>, k: nat)
    requires k < |units|
    ensures Graphic(s.enc, units[k]) ==> GoesOn(s, units, k, s.address + Scale(s.enc, k)) == s.MayStart(k)
    ensures !Graphic(s.enc, units[k]) ==>
              GoesOn(s, units, k, s.address + Scale(s.enc, k))
              == GoesOn(s, units, k + 1, s.address + Scale(s.enc, k + 1))
  {
    hide Graphic, Scale;
  }

  lemma StopsHere(s: Search, units: seq<nat>, k: nat)
    requires k < |units| && !s.MayStart(k)
    ensures !GoesOn(s, units, k, s.address + Scale(s.enc, k))
  {
    ScaleMonotone(s.enc, k, NextGraphic(s.enc, units, k));
  }

  /** A run of stringMin characters was found; it is read up to the next non-graphic character. */
  method FinishRun(input: Input, s: Search, ghost units: seq<nat>, ghost size: nat, ghost k: nat, start: nat,
                   buf: seq<nat>)
    returns (found: Found, ghost end: nat, ghost next: nat)
    requires k + |buf| <= |units| && Before(input, s, units, size, k + |buf|)
    requires Collected(s.enc, units, k, k + |buf|, buf) && |buf| >= s.stringMin >= 1
    requires s.MayStart(k) && start == s.address + Scale(s.enc, k)
    modifies input
    ensures next <= |units| && Before(input, s, units, size, next)
    ensures StringsFrom(s, units, k) == [Extent(k, end)] + StringsFrom(s, units, end + 1)
    ensures Output(s, units, k) == [found] + Output(s, units, next)
    ensures end <= |units| && if end == |units| then next == end && input.address == s.address + size
                              else next == end + 1 && input.address == s.address + Scale(s.enc, next)
    ensures |input.Rest()| <= |old(input.Rest())|
  {
    hide *;
    var text: seq<nat> := buf;
    end := k + |buf|;
    while true
      invariant end <= |units| && Before(input, s, units, size, end) && end - k >= s.stringMin
      invariant Collected(s.enc, units, k, end, text)
      invariant |input.Rest()| <= |old(input.Rest())|
      decreases |units| - end
    {
      var c := NextChar(input, s, units, size, end);
      if c == EOF {
        CollectedAll(s.enc, units, k, text);
        next := end;
        NothingLeft(s, units, end);
        NothingLeft(s, units, end + 1);
        break;
      }
      Collect(s.enc, units, k, end, text);
      if !Graphic(s.enc, c) {
        next := end + 1;
        break;
      }
      text := text + [c];
      end := end + 1;
    }
    LongRun(s, units, k, end);
    FoundIs(s, units, k, end, text);
    found := Found(start, text);
  }

  lemma FoundIs(s: Search, units: seq<nat>, k: nat, end: nat, text: seq<nat>)
    requires Collected(s.enc, units, k, end, text)
    ensures k <= end <= |units| && FoundAt(s, units, Extent(k, end)) == Found(s.address + Scale(s.enc, k), text)
  {
  }

  datatype Outcome = AtEnd | Again | Full

  /** See if the next stringMin characters are all graphic: the input may end before, or a
      non-graphic character may make the search start again behind it. The buffer is released at
      the end of the input, and written to with the first graphic character. */
  method TryLine(input: Input, s: Search, buffer: TextBuffer, ghost units: seq<nat>, ghost size: nat, ghost k: nat)
    returns (outcome: Outcome, ghost next: nat)
    requires k <= |units| && Before(input, s, units, size, k) && (k < |units| ==> s.MayStart(k)) && s.stringMin >= 1
    modifies input, buffer
    ensures outcome == AtEnd ==> StringsFrom(s, units, k) == [] && Output(s, units, k) == []
    ensures outcome == Again ==> StringsFrom(s, units, k) == StringsFrom(s, units, next)
    ensures outcome == Again ==> Output(s, units, k) == Output(s, units, next)
    ensures outcome == Full ==> next == k + s.stringMin && |buffer.chars| == s.stringMin
    ensures outcome == Full ==> Collected(s.enc, units, k, next, buffer.chars)
    ensures outcome != AtEnd ==> k < next <= |units| && Before(input, s, units, size, next)
    ensures outcome != AtEnd ==> input.address == s.address + Scale(s.enc, next)
    ensures outcome != AtEnd ==> |input.Rest()| < |old(input.Rest())|
    ensures k < |units| && !Graphic(s.enc, units[k]) ==> outcome == Again && next == k + 1
    ensures buffer.released == (old(buffer.released) || outcome == AtEnd)
    ensures buffer.misused ==
              (old(buffer.misused) || (old(buffer.released) && (k == |units| || Graphic(s.enc, units[k]))))
  {
    hide *;
    next := k;
    CollectNone(s.enc, units, k);
    var i := 0;
    while i < s.stringMin
      invariant i <= s.stringMin && next == k + i <= |units| && Before(input, s, units, size, next)
      invariant i <= |buffer.chars| && Collected(s.enc, units, k, next, buffer.chars[..i])
      invariant i > 0 ==> |buffer.chars| == i && input.address == s.address + Scale(s.enc, next)
      invariant i > 0 ==> Graphic(s.enc, units[k])
      invariant if i == 0 then input.Rest() == old(input.Rest()) else |input.Rest()| < |old(input.Rest())|
      invariant buffer.released == old(buffer.released)
      invariant buffer.misused == (old(buffer.misused) || (i > 0 && buffer.released))
    {
      var c := NextChar(input, s, units, size, next);
      if c == EOF {
        CollectedAll(s.enc, units, k, buffer.chars[..i]);
        ShortRun(s, units, k, next);
        NothingLeft(s, units, next + 1);
        buffer.Release();
        outcome := AtEnd;
        return;
      }
      Collect(s.enc, units, k, next, buffer.chars[..i]);
      if !Graphic(s.enc, c) {
        ShortRun(s, units, k, next);
        next := next + 1;
        outcome := Again;
        return;
      }
      ghost var before := buffer.chars[..i];
      buffer.Store(i, c);
      assert buffer.chars == before + [c] == buffer.chars[..i + 1];
      i := i + 1;
      next := next + 1;
    }
    assert buffer.chars[..i] == buffer.chars;
    outcome := Full;
  }

  /** print_strings. The list is that of the wanted runs, each with the address of its first byte.
      The source releases the buffer at every printed run and at the end of the input, but allocates
      it once: the list is what a buffer that keeps its contents prints, and the buffer is misused
      on exactly the inputs that Misuse tells. */
  method PrintStrings(input: Input, s: Search) returns (out: seq<Found>, misused: bool)
    requires s.stringMin >= 1 && s.address == input.address
    modifies input
    ensures out == Output(s, Units(s.enc, old(input.Rest())), 0)
    ensures misused <==> Misuse(s, Units(s.enc, old(input.Rest())), |old(input.Rest())|)
  {
    hide *;
    ghost var units, size := Units(s.enc, input.Rest()), |input.Rest()|;
    ghost var k: nat := 0;
    var buffer := new TextBuffer();
    Beginning(input, s, units);
    out := [];
    while true
      invariant k <= |units| && Before(input, s, units, size, k) && fresh(buffer)
      invariant Printed(s, units, out, k)
      invariant Accounted(s, units, size, k, input.address, buffer.released, buffer.misused)
      decreases |input.Rest()|
    {
      if s.stopPoint != 0 && input.address >= s.stopPoint {
        PastStop(input, s, units, size, k);
        AllPrinted(s, units, out, k);
        AccountedAtStop(input, s, units, size, k, buffer.released, buffer.misused);
        break;
      }
      var start := input.address;
      BeforeIs(input, s, units, size, k);
      ghost var released, wasMisused := buffer.released, buffer.misused;
      var outcome;
      ghost var next;
      outcome, next := TryLine(input, s, buffer, units, size, k);
      if outcome == AtEnd {
        AllPrinted(s, units, out, k);
        AccountedAtEnd(s, units, size, k, start, released, wasMisused);
        break;
      }
      if outcome == Again {
        PrintedNothing(s, units, out, k, next);
        AccountedAgain(s, units, size, k, next, released, wasMisused);
        k := next;
        continue;
      }
      ghost var chars := buffer.chars;
      buffer.Store(s.stringMin, 0);
      var buf := buffer.Text(s.stringMin);
      assert buf == chars;
      buffer.Release();
      var found;
      ghost var end;
      found, end, next := FinishRun(input, s, units, size, k, start, buf);
      PrintedOne(s, units, out, k, found, next);
      AccountedRun(s, units, size, k, end, next, released, wasMisused);
      out := out + [found];
      k := next;
    }
    misused := buffer.misused;
  }

  /** Before the first printed run the buffer is not released; after it, it will have been misused
      exactly when it was already or the search goes on. */
  ghost predicate Accounted(s: Search, units: seq<nat>, size: nat, k: nat, address: nat, released: bool, misused: bool)
    requires k <= |units|
  {
    if released then Misuse(s, units, size) <==> misused || GoesOn(s, units, k, address)
    else !misused && StringsFrom(s, units, k) == StringsFrom(s, units, 0)
  }

  lemma AccountedAtStop(input: Input, s: Search, units: seq<nat>, size: nat, k: nat, released: bool, misused: bool)
    requires Before(input, s, units, size, k) && s.stopPoint != 0 && input.address >= s.stopPoint
    requires Accounted(s, units, size, k, input.address, released, misused)
    ensures misused <==> Misuse(s, units, size)
  {
    if k < |units| {
      StopsHere(s, units, k);
    }
    NothingLeft(s, units, k);
    hide StringsFrom, NextGraphic, Units, Scale;
  }

  lemma AccountedAtEnd(s: Search, units: seq<nat>, size: nat, k: nat, address: nat, released: bool, misused: bool)
    requires k <= |units| && Accounted(s, units, size, k, address, released, misused)
    requires StringsFrom(s, units, k) == [] && (s.stopPoint == 0 || address < s.stopPoint)
    requires k < |units| ==> address == s.address + Scale(s.enc, k) && s.MayStart(k) && Graphic(s.enc, units[k])
    ensures misused || released <==> Misuse(s, units, size)
  {
    if k < |units| {
      NextGraphicStep(s, units, k);
    }
    hide StringsFrom, NextGraphic, Graphic, Scale;
  }

  lemma AccountedAgain(s: Search, units: seq<nat>, size: nat, k: nat, next: nat, released: bool, misused: bool)
    requires k < next <= |units| && s.MayStart(k)
    requires Accounted(s, units, size, k, s.address + Scale(s.enc, k), released, misused)
    requires StringsFrom(s, units, k) == StringsFrom(s, units, next)
    requires !Graphic(s.enc, units[k]) ==> next == k + 1
    ensures Accounted(s, units, size, next, s.address + Scale(s.enc, next), released,
                      misused || (released && Graphic(s.enc, units[k])))
  {
    NextGraphicStep(s, units, k);
    hide StringsFrom, GoesOn, Graphic, Scale;
  }

  lemma AccountedRun(s: Search, units: seq<nat>, size: nat, k: nat, end: nat, next: nat, released: bool, misused: bool)
    requires k < |units| && s.MayStart(k) && Graphic(s.enc, units[k])
    requires Accounted(s, units, size, k, s.address + Scale(s.enc, k), released, misused)
    requires StringsFrom(s, units, k) == [Extent(k, end)] + StringsFrom(s, units, end + 1)
    requires end <= |units| && next == if end == |units| then end else end + 1
    ensures Accounted(s, units, size, next, s.address + if end == |units| then size else Scale(s.enc, next), true,
                      misused || released)
  {
    NextGraphicStep(s, units, k);
    hide StringsFrom, GoesOn, Graphic, Scale;
  }

  /** Together with the rest from k on, what was printed is the whole output. */
  ghost predicate Printed(s: Search, units: seq<nat>, out: seq<Found>, k: nat) {
    out + Output(s, units, k) == Output(s, units, 0)
  }

  lemma Beginning(input: Input, s: Search, units: seq<nat>)
    requires units == Units(s.enc, input.Rest()) && s.address == input.address
    ensures Before(input, s, units, |input.Rest()|, 0) && Printed(s, units, [], 0)
    ensures Accounted(s, units, |input.Rest()|, 0, input.address, false, false)
  {
    hide Units, Output;
    assert units[0..] == units && [] + Output(s, units, 0) == Output(s, units, 0);
  }

  lemma AllPrinted(s: Search, units: seq<nat>, out: seq<Found>, k: nat)
    requires Printed(s, units, out, k) && Output(s, units, k) == []
    ensures out == Output(s, units, 0)
  {
    hide Output;
  }

  lemma PrintedNothing(s: Search, units: seq<nat>, out: seq<Found>, k: nat, next: nat)
    requires Printed(s, units, out, k) && Output(s, units, k) == Output(s, units, next)
    ensures Printed(s, units, out, next)
  {
    hide Output;
  }

  lemma PrintedOne(s: Search, units: seq<nat>, out: seq<Found>, k: nat, found: Found, next: nat)
    requires Printed(s, units, out, k) && Output(s, units, k) == [found] + Output(s, units, next)
    ensures Printed(s, units, out + [found], next)
  {
    hide Output;
    assert out + ([found] + Output(s, units, next)) == out + [found] + Output(s, units, next);
  }

  lemma PastStop(input: Input, s: Search, units: seq<nat>, size: nat, k: nat)
    requires Before(input, s, units, size, k) && s.stopPoint != 0 && input.address >= s.stopPoint
    ensures Output(s, units, k) == []
  {
    NothingLeft(s, units, k);
    hide Output;
  }

  lemma TooShort(enc: Encoding, data: seq<Byte>)
    requires |data| < Bytes(enc)
    ensures Units(enc, data) == []
  {
  }
}

/** Text written in an encoding, and the strings that are found in it. */
module WrittenText {
  import opened Options
  import opened Unsigned
  import opened Digits
  import opened GraphicRuns
  import opened StringScanner

  function Width(enc: Encoding): (w: nat)
    ensures w > 0
  {
    match enc
    case SevenBit | EightBit => 1
    case Big16 | Little16 => 2
    case Big32 | Little32 => 4
  }

  function Code(enc: Encoding, c: nat): (bytes: seq<Byte>)
    ensures |bytes| == Width(enc)
  {
    match enc
    case SevenBit | EightBit => [c % 256]
    case Big16 => HighFirst(c, 2)
    case Little16 => LowFirst(c, 2)
    case Big32 => HighFirst(c, 4)
    case Little32 => LowFirst(c, 4)
  }

  predicate Fits(enc: Encoding, c: nat) {
    match enc
    case SevenBit | EightBit => c < 0x100
    case Big16 | Little16 => c < 0x1_0000
    case Big32 | Little32 => c < 0x1_0000_0000
  }

  function Written(enc: Encoding, chars: seq<nat>): seq<Byte> {
    if chars == [] then [] else Code(enc, chars[0]) + Written(enc, chars[1..])
  }

  /** A character is read back from its code. */
  lemma DecodeCode(enc: Encoding, c: nat)
    requires Fits(enc, c)
    ensures |Code(enc, c)| == Bytes(enc) && Decode(enc, Code(enc, c)) == c
  {
    TwoDigits(c);
    FourDigits(c);
    if c < 0x1_0000 {
      TwoDigitsMake(c);
    }
    FourDigitsMake(c);
    hide HighFirst, LowFirst;
  }

  /** Reading inverts writing; bytes at the end that make no character are dropped. */
  lemma {:induction false} UnitsOfWritten(enc: Encoding, chars: seq<nat>, rest: seq<Byte>)
    requires (forall c <- chars :: Fits(enc, c)) && |rest| < Width(enc)
    ensures Units(enc, Written(enc, chars) + rest) == chars
    decreases |chars|
  {
    hide Code, Decode;
    if chars == [] {
      assert [] + rest == rest;
    } else {
      var later := Written(enc, chars[1..]) + rest;
      DecodeCode(enc, chars[0]);
      UnitsOfWritten(enc, chars[1..], rest);
      assert Written(enc, chars) + rest == Code(enc, chars[0]) + later;
      UnitsNext(enc, Code(enc, chars[0]), later);
      assert chars == [chars[0]] + chars[1..];
    }
  }

  lemma UnitsNext(enc: Encoding, code: seq<Byte>, later: seq<Byte>)
    requires |code| == Bytes(enc)
    ensures Units(enc, code + later) == [Decode(enc, code)] + Units(enc, later)
  {
    assert (code + later)[..Bytes(enc)] == code && (code + later)[Bytes(enc)..] == later;
    hide Decode;
  }

  // ----- what is printed

  /** A tab, a printing ASCII character, or in the 8-bit encoding any character with its high bit set. */
  predicate Shown(enc: Encoding, c: nat) { c == 9 || 32 <= c <= 126 || (enc == EightBit && 128 <= c <= 255) }

  /** The characters from start up to end are shown, as far as possible in both directions, are enough
      for a string, and begin in front of the stop point. */
  predicate Printable(s: Search, chars: seq<nat>, start: nat, end: nat) {
    && start < end <= |chars| && end - start >= s.stringMin
    && (forall i :: start <= i < end ==> Shown(s.enc, chars[i]))
    && (start > 0 ==> !Shown(s.enc, chars[start - 1]))
    && (end < |chars| ==> !Shown(s.enc, chars[end]))
    && (s.stopPoint == 0 || s.address + Width(s.enc) * start < s.stopPoint)
  }

  /** The strings of a text: each with the address of its first byte, in order. */
  ghost predicate StringsOf(s: Search, chars: seq<nat>, out: seq<Found>, starts: seq<nat>, ends: seq<nat>) {
    && |out| == |starts| == |ends|
    && (forall i, j :: 0 <= i < j < |starts| ==> starts[i] < starts[j])
    && (forall i :: 0 <= i < |out| ==>
          && Printable(s, chars, starts[i], ends[i])
          && out[i] == Found(s.address + Width(s.enc) * starts[i], chars[starts[i]..ends[i]]))
    && (forall start: nat, end: nat :: Printable(s, chars, start, end) ==>
          exists i :: 0 <= i < |out| && starts[i] == start && ends[i] == end)
  }

  lemma ShownIsGraphic(enc: Encoding, c: nat)
    ensures Shown(enc, c) <==> Graphic(enc, c)
  {
  }

  lemma WantedIsPrintable(s: Search, chars: seq<nat>, x: Extent)
    ensures Wanted(s, chars, x) <==> Printable(s, chars, x.start, x.end)
  {
    forall c: nat ensures Shown(s.enc, c) <==> Graphic(s.enc, c) {
      ShownIsGraphic(s.enc, c);
    }
    assert Scale(s.enc, x.start) == Width(s.enc) * x.start;
    hide Shown, Graphic, Scale, Width;
  }

  lemma OutputAt(s: Search, chars: seq<nat>, i: nat)
    requires i < |StringsFrom(s, chars, 0)|
    ensures |Output(s, chars, 0)| == |StringsFrom(s, chars, 0)|
    ensures var x := StringsFrom(s, chars, 0)[i];
            && x.start <= x.end <= |chars|
            && Output(s, chars, 0)[i] == Found(s.address + Width(s.enc) * x.start, chars[x.start..x.end])
  {
    hide StringsFrom;
  }

  lemma PrintedAt(s: Search, chars: seq<nat>, i: nat)
    requires s.stringMin >= 1 && i < |StringsFrom(s, chars, 0)|
    ensures Printable(s, chars, StringsFrom(s, chars, 0)[i].start, StringsFrom(s, chars, 0)[i].end)
  {
    var runs := StringsFrom(s, chars, 0);
    StringsExact(s, chars, runs);
    WantedIsPrintable(s, chars, runs[i]);
    assert runs[i] in runs;
    hide StringsFrom, Wanted, Printable;
  }

  lemma PrintableIsFound(s: Search, chars: seq<nat>, start: nat, end: nat) returns (i: nat)
    requires s.stringMin >= 1 && Printable(s, chars, start, end)
    ensures i < |StringsFrom(s, chars, 0)| && StringsFrom(s, chars, 0)[i] == Extent(start, end)
  {
    var runs := StringsFrom(s, chars, 0);
    StringsExact(s, chars, runs);
    WantedIsPrintable(s, chars, Extent(start, end));
    hide StringsFrom, Wanted, Printable;
    i :| 0 <= i < |runs| && runs[i] == Extent(start, end);
  }

  lemma StartsRise(s: Search, chars: seq<nat>)
    requires s.stringMin >= 1
    ensures Ordered(StringsFrom(s, chars, 0)) && |Output(s, chars, 0)| == |StringsFrom(s, chars, 0)|
  {
    StringsExact(s, chars, StringsFrom(s, chars, 0));
    hide StringsFrom, Wanted, Ordered;
  }

  /** The output is exactly the list of the strings of the text. */
  lemma OutputIsStrings(s: Search, chars: seq<nat>) returns (starts: seq<nat>, ends: seq<nat>)
    requires s.stringMin >= 1
    ensures StringsOf(s, chars, Output(s, chars, 0), starts, ends)
  {
    StartsRise(s, chars);
    hide Printable, StringsFrom, Output, Wanted;
    var runs, out := StringsFrom(s, chars, 0), Output(s, chars, 0);
    starts := seq(|runs|, i requires 0 <= i < |runs| => runs[i].start);
    ends := seq(|runs|, i requires 0 <= i < |runs| => runs[i].end);
    forall i | 0 <= i < |out|
      ensures Printable(s, chars, starts[i], ends[i])
      ensures out[i] == Found(s.address + Width(s.enc) * starts[i], chars[starts[i]..ends[i]])
    {
      PrintedAt(s, chars, i);
      OutputAt(s, chars, i);
    }
    forall start: nat, end: nat | Printable(s, chars, start, end)
      ensures exists i :: 0 <= i < |out| && starts[i] == start && ends[i] == end
    {
      var i := PrintableIsFound(s, chars, start, end);
      assert starts[i] == start && ends[i] == end;
    }
  }

  /** A text that is shown throughout comes out as one string, in every encoding. */
  lemma TextComesOut(enc: Encoding, text: seq<nat>, stringMin: nat, address: nat)
    requires 1 <= stringMin <= |text| && forall c <- text :: Shown(enc, c)
    ensures Output(Search(enc, stringMin, address, 0), Units(enc, Written(enc, text)), 0) == [Found(address, text)]
  {
    var s := Search(enc, stringMin, address, 0);
    forall c <- text ensures Fits(enc, c) {
    }
    UnitsOfWritten(enc, text, []);
    assert Written(enc, text) + [] == Written(enc, text);
    var starts, ends := OutputIsStrings(s, text);
    assert Printable(s, text, 0, |text|);
    hide Output, Written, Units;
    OnlyOne(s, text, starts, ends);
  }

  lemma OnlyOne(s: Search, text: seq<nat>, starts: seq<nat>, ends: seq<nat>)
    requires (forall c <- text :: Shown(s.enc, c)) && Printable(s, text, 0, |text|)
    requires StringsOf(s, text, Output(s, text, 0), starts, ends)
    ensures Output(s, text, 0) == [Found(s.address, text)]
  {
    var out := Output(s, text, 0);
    forall start: nat, end: nat | Printable(s, text, start, end) ensures start == 0 && end == |text| {
    }
    hide Output, Shown, Printable;
    assert forall i :: 0 <= i < |starts| ==> starts[i] == 0 && ends[i] == |text|;
    if |starts| > 1 {
      FirstBeforeSecond(starts);
      assert false;
    }
    assert text[0..|text|] == text;
  }

  lemma FirstBeforeSecond(starts: seq<nat>)
    requires |starts| > 1 && forall i, j :: 0 <= i < j < |starts| ==> starts[i] < starts[j]
    ensures starts[0] < starts[1]
  {
  }

  /** What print_strings makes of a text written in any encoding: exactly its strings. */
  method ScanText(s: Search, chars: seq<nat>, rest: seq<Byte>)
    returns (out: seq<Found>, misused: bool, ghost starts: seq<nat>, ghost ends: seq<nat>)
    requires s.stringMin >= 1 && (forall c <- chars :: Fits(s.enc, c)) && |rest| < Width(s.enc)
    ensures StringsOf(s, chars, out, starts, ends)
  {
    UnitsOfWritten(s.enc, chars, rest);
    hide *;
    var input := new Input(Written(s.enc, chars) + rest, None, s.address);
    assert Written(s.enc, chars) + rest + [] == Written(s.enc, chars) + rest;
    out, misused := PrintStrings(input, s);
    starts, ends := OutputIsStrings(s, chars);
  }
}

/** Command lines as a user writes them, and what the option parser reads from them. */
module OptionWriting {
  import opened Options
  import opened OptionSteps

  type Item = (char, Option<string>)

  // ----- what the option string says about a letter

  /** The first place of a letter. */
  predicate FirstAt(optstring: string, c: char, k: nat) {
    k < |optstring| && optstring[k] == c && forall j :: 0 <= j < k ==> optstring[j] != c
  }

  /** The letter stands in the option string, and a colon follows where it does first. */
  ghost predicate WantsArg(optstring: string, c: char) {
    c != ':' && exists k: nat :: FirstAt(optstring, c, k) && k + 1 < |optstring| && optstring[k + 1] == ':'
  }

  predicate Unlisted(optstring: string, c: char) { c == ':' || c !in optstring }

  // ----- writing

  /** Letters behind one dash, alone or followed by a letter that has an argument, in the same element
      or in the next one. */
  datatype Written = Plain(letters: string)
                   | Attached(letters: string, c: char, arg: string)
                   | Separate(letters: string, c: char, arg: string)

  function Elements(w: Written): (elements: seq<string>)
    ensures |elements| > 0
  {
    match w
    case Plain(letters) => ["-" + letters]
    case Attached(letters, c, arg) => ["-" + (letters + ([c] + arg))]
    case Separate(letters, c, arg) => ["-" + (letters + [c]), arg]
  }

  function CommandLine(options: seq<Written>): seq<string> {
    if options == [] then [] else Elements(options[0]) + CommandLine(options[1..])
  }

  /** An argument goes to a letter that wants one and to no other, and no element reads "--". */
  ghost predicate Proper(optstring: string, w: Written) {
    && (forall c <- w.letters :: !WantsArg(optstring, c))
    && match w
       case Plain(letters) => letters != "" && letters != "-"
       case Attached(_, c, arg) => WantsArg(optstring, c) && arg != ""
       case Separate(letters, c, _) => WantsArg(optstring, c) && !(letters == "" && c == '-')
  }

  // ----- what is to be read

  /** A letter that is not in the option string is reported as '?'. */
  function LetterItems(optstring: string, letters: string): seq<Item> {
    if letters == "" then []
    else [(if Unlisted(optstring, letters[0]) then '?' else letters[0], None)] + LetterItems(optstring, letters[1..])
  }

  function ItemsOf(optstring: string, w: Written): seq<Item> {
    match w
    case Plain(letters) => LetterItems(optstring, letters)
    case Attached(letters, c, arg) => LetterItems(optstring, letters) + [(c, Some(arg))]
    case Separate(letters, c, arg) => LetterItems(optstring, letters) + [(c, Some(arg))]
  }

  function AllItems(optstring: string, options: seq<Written>): seq<Item> {
    if options == [] then [] else ItemsOf(optstring, options[0]) + AllItems(optstring, options[1..])
  }

  // ----- reading a letter

  lemma {:induction false} FindsFirst(optstring: string, c: char, k: nat)
    requires FirstAt(optstring, c, k)
    ensures Find(optstring, c) == k
    decreases k
  {
    if k > 0 {
      FindsFirst(optstring[1..], c, k - 1);
    }
  }

  lemma {:induction false} HasFirst(optstring: string, c: char) returns (k: nat)
    requires c in optstring
    ensures FirstAt(optstring, c, k)
    decreases |optstring|
  {
    if optstring[0] == c {
      k := 0;
    } else {
      k := HasFirst(optstring[1..], c);
      k := k + 1;
    }
  }

  lemma LetterIs(optstring: string, c: char)
    ensures TakesArg(optstring, c) <==> WantsArg(optstring, c)
    ensures Known(optstring, c) <==> !Unlisted(optstring, c)
  {
    if c in optstring {
      var k := HasFirst(optstring, c);
      FindsFirst(optstring, c, k);
      forall j: nat | FirstAt(optstring, c, j) ensures j == k {
        FindsFirst(optstring, c, j);
      }
    }
    hide Find;
  }

  /** The items in front of what a run reads. */
  function Before(items: seq<Item>, later: Outcome): Outcome { later.(items := items + later.items) }

  lemma BeforeTwice(a: seq<Item>, b: seq<Item>, later: Outcome)
    ensures Before(a, Before(b, later)) == Before(a + b, later)
  {
    assert a + (b + later.items) == a + b + later.items;
  }

  /** A call inside an element. */
  lemma OneLetter(argv: seq<string>, optstring: string, s: State, c: char, tail: string)
    requires s.optind > 0 && s.next == Some([c] + tail) && !WantsArg(optstring, c)
    ensures Run(argv, optstring, s)
         == Before([(if Unlisted(optstring, c) then '?' else c, None)],
                   Run(argv, optstring, State(s.optind, None, Some(tail))))
  {
    LetterIs(optstring, c);
    RunFrom(argv, optstring, s);
    assert ([c] + tail)[1..] == tail;
    hide Run, Known, TakesArg, WantsArg, Unlisted;
  }

  lemma {:induction false} ReadLetters(argv: seq<string>, optstring: string, s: State, letters: string, tail: string)
    requires s.optind > 0 && s.next == Some(letters + tail) && forall c <- letters :: !WantsArg(optstring, c)
    requires letters != ""
    ensures Run(argv, optstring, s)
         == Before(LetterItems(optstring, letters), Run(argv, optstring, State(s.optind, None, Some(tail))))
    decreases |letters|
  {
    var c, rest := letters[0], letters[1..];
    assert letters + tail == [c] + (rest + tail);
    OneLetter(argv, optstring, s, c, rest + tail);
    hide Run, WantsArg, Unlisted;
    var next := State(s.optind, None, Some(rest + tail));
    if rest == "" {
      assert rest + tail == tail;
    } else {
      ReadLetters(argv, optstring, next, rest, tail);
      BeforeTwice([(if Unlisted(optstring, c) then '?' else c, None)], LetterItems(optstring, rest),
                  Run(argv, optstring, State(s.optind, None, Some(tail))));
    }
  }

  // ----- reading an element

  /** A call that comes to an element reads on behind its dash. */
  lemma EnterElement(argv: seq<string>, optstring: string, s: State, letters: string)
    requires s.AtBoundary() && 0 < s.optind < |argv| && argv[s.optind] == "-" + letters
    requires letters != "" && letters != "-"
    ensures Run(argv, optstring, s) == Run(argv, optstring, State(s.optind + 1, None, Some(letters)))
  {
    var inside := State(s.optind + 1, None, Some(letters));
    assert ("-" + letters)[1..] == letters;
    RunFrom(argv, optstring, s);
    RunFrom(argv, optstring, inside);
    hide Run, Letter;
  }

  lemma ReadAttached(argv: seq<string>, optstring: string, s: State, c: char, arg: string)
    requires s.optind > 0 && s.next == Some([c] + arg) && WantsArg(optstring, c) && arg != ""
    ensures Run(argv, optstring, s)
         == Before([(c, Some(arg))], Run(argv, optstring, State(s.optind, Some(arg), None)))
  {
    LetterIs(optstring, c);
    RunFrom(argv, optstring, s);
    assert ([c] + arg)[1..] == arg;
    hide Run, Find, WantsArg;
  }

  lemma ReadSeparate(argv: seq<string>, optstring: string, s: State, c: char)
    requires 0 < s.optind < |argv| && s.next == Some([c]) && WantsArg(optstring, c)
    ensures var arg := Some(argv[s.optind]);
            Run(argv, optstring, s)
            == Before([(c, arg)], Run(argv, optstring, State(s.optind + 1, arg, Some(""))))
  {
    LetterIs(optstring, c);
    RunFrom(argv, optstring, s);
    hide Run, Find, WantsArg;
  }

  /** A letter that wants an argument at the very end. */
  lemma ReadMissing(argv: seq<string>, optstring: string, s: State, c: char)
    requires 0 < s.optind == |argv| && s.next == Some([c]) && WantsArg(optstring, c)
    ensures Run(argv, optstring, s)
         == Before([('?', None)], Run(argv, optstring, State(s.optind, None, Some(""))))
  {
    LetterIs(optstring, c);
    RunFrom(argv, optstring, s);
    hide Run, Find, WantsArg;
  }

  /** The letters of an element in front of its last option. */
  lemma ReadFront(argv: seq<string>, optstring: string, s: State, letters: string, tail: string)
    requires s.AtBoundary() && 0 < s.optind < |argv| && argv[s.optind] == "-" + (letters + tail)
    requires letters + tail != "" && letters + tail != "-" && forall c <- letters :: !WantsArg(optstring, c)
    ensures Run(argv, optstring, s)
         == Before(LetterItems(optstring, letters), Run(argv, optstring, State(s.optind + 1, None, Some(tail))))
  {
    var inside := State(s.optind + 1, None, Some(letters + tail));
    EnterElement(argv, optstring, s, letters + tail);
    hide Run, WantsArg;
    if letters == "" {
      assert letters + tail == tail;
    } else {
      ReadLetters(argv, optstring, inside, letters, tail);
    }
  }

  lemma NotDashes(letters: string, c: char)
    requires !(letters == "" && c == '-')
    ensures letters + [c] != "-"
  {
    assert letters == "" ==> (letters + [c])[0] == c;
  }

  /** The state behind an option is at a boundary, and the run goes on from there. */
  lemma ReadOption(argv: seq<string>, optstring: string, s: State, w: Written) returns (after: State)
    requires s.AtBoundary() && 0 < s.optind && Proper(optstring, w)
    requires s.optind + |Elements(w)| <= |argv| && argv[s.optind..s.optind + |Elements(w)|] == Elements(w)
    ensures after.AtBoundary() && after.optind == s.optind + |Elements(w)|
    ensures Run(argv, optstring, s) == Before(ItemsOf(optstring, w), Run(argv, optstring, after))
  {
    var j := s.optind;
    assert argv[j..j + |Elements(w)|][0] == argv[j];
    hide Run, WantsArg, LetterItems;
    match w
    case Plain(letters) =>
      after := State(j + 1, None, Some(""));
      assert letters + "" == letters;
      ReadFront(argv, optstring, s, letters, "");
    case Attached(letters, c, arg) =>
      after := State(j + 1, Some(arg), None);
      ReadFront(argv, optstring, s, letters, [c] + arg);
      ReadAttached(argv, optstring, State(j + 1, None, Some([c] + arg)), c, arg);
      BeforeTwice(LetterItems(optstring, letters), [(c, Some(arg))], Run(argv, optstring, after));
    case Separate(letters, c, arg) =>
      assert argv[j..j + 2][1] == argv[j + 1];
      NotDashes(letters, c);
      after := State(j + 2, Some(arg), Some(""));
      ReadFront(argv, optstring, s, letters, [c]);
      ReadSeparate(argv, optstring, State(j + 1, None, Some([c])), c);
      BeforeTwice(LetterItems(optstring, letters), [(c, Some(arg))], Run(argv, optstring, after));
  }

  // ----- reading a command line

  /** The element ends the options. */
  predicate Stops(element: string) { element == "" || element[0] != '-' || element == "-" || element == "--" }

  lemma {:induction false} ReadAll(front: seq<string>, options: seq<Written>, rest: seq<string>, optstring: string,
                                   s: State) returns (after: State)
    requires s.AtBoundary() && s.optind == |front| > 0 && forall w <- options :: Proper(optstring, w)
    ensures after.AtBoundary() && after.optind == |front| + |CommandLine(options)|
    ensures var argv := front + CommandLine(options) + rest;
            Run(argv, optstring, s) == Before(AllItems(optstring, options), Run(argv, optstring, after))
    decreases |options|
  {
    var argv := front + CommandLine(options) + rest;
    hide Run, Proper;
    if options == [] {
      after := s;
      BeforeNothing(Run(argv, optstring, s));
    } else {
      var w, later := options[0], options[1..];
      assert argv == (front + Elements(w)) + CommandLine(later) + rest;
      assert argv[|front|..|front| + |Elements(w)|] == Elements(w);
      hide Elements, ItemsOf;
      var next := ReadOption(argv, optstring, s, w);
      after := ReadAll(front + Elements(w), later, rest, optstring, next);
      BeforeTwice(ItemsOf(optstring, w), AllItems(optstring, later), Run(argv, optstring, after));
    }
  }

  lemma BeforeNothing(later: Outcome)
    ensures Before([], later) == later
  {
    assert [] + later.items == later.items;
  }

  lemma RunStops(argv: seq<string>, optstring: string, s: State)
    requires s.AtBoundary() && s.optind > 0 && (s.optind < |argv| ==> Stops(argv[s.optind]))
    ensures var k := if s.optind < |argv| && argv[s.optind] == "--" then s.optind + 1 else s.optind;
            Run(argv, optstring, s) == Outcome([], if k < |argv| then Some(argv[k]) else None, k)
  {
    RunFrom(argv, optstring, s);
    hide Run, Letter;
  }

  /** The run over a command line gives the letters and arguments it was written from, in order. The final
      index is that of the first element behind the options, and of the one after it if that is "--"; the
      final argument is the element found there. */
  lemma ParsingInvertsWriting(program: string, options: seq<Written>, rest: seq<string>, optstring: string, s: State)
    requires s.optind == 0 && (forall w <- options :: Proper(optstring, w)) && (rest != [] ==> Stops(rest[0]))
    ensures var argv := [program] + CommandLine(options) + rest;
            var behind := 1 + |CommandLine(options)|;
            var k := if rest != [] && rest[0] == "--" then behind + 1 else behind;
            Run(argv, optstring, s)
            == Outcome(AllItems(optstring, options), if k < |argv| then Some(argv[k]) else None, k)
  {
    var argv := [program] + CommandLine(options) + rest;
    RunBegins(argv, optstring, s);
    var after := ReadAll([program], options, rest, optstring, Begin(s));
    assert rest != [] ==> argv[1 + |CommandLine(options)|] == rest[0];
    RunStops(argv, optstring, after);
    hide Run, CommandLine, AllItems, Proper, Stops;
    assert forall items: seq<Item> :: items + [] == items;
  }

  /** A last option without the argument it wants is reported as '?'. */
  lemma MissingArgument(program: string, options: seq<Written>, letters: string, c: char, optstring: string, s: State)
    requires s.optind == 0 && forall w <- options :: Proper(optstring, w)
    requires (forall d <- letters :: !WantsArg(optstring, d)) && WantsArg(optstring, c) && !(letters == "" && c == '-')
    ensures var argv := [program] + CommandLine(options) + ["-" + (letters + [c])];
            Run(argv, optstring, s)
            == Outcome(AllItems(optstring, options) + LetterItems(optstring, letters) + [('?', None)], None, |argv|)
  {
    var last := ["-" + (letters + [c])];
    var argv, n := [program] + CommandLine(options) + last, 1 + |CommandLine(options)|;
    RunBegins(argv, optstring, s);
    var after := ReadAll([program], options, last, optstring, Begin(s));
    assert argv[n] == last[0];
    var missing: seq<Item> := [('?', None)];
    NotDashes(letters, c);
    MissingAtEnd(argv, optstring, after, letters, c);
    hide *;
    BeforeEnd(AllItems(optstring, options), LetterItems(optstring, letters) + missing, n + 1);
    JoinedTwice(AllItems(optstring, options), LetterItems(optstring, letters), missing);
  }

  lemma MissingAtEnd(argv: seq<string>, optstring: string, s: State, letters: string, c: char)
    requires s.AtBoundary() && 0 < s.optind && |argv| == s.optind + 1 && argv[s.optind] == "-" + (letters + [c])
    requires (forall d <- letters :: !WantsArg(optstring, d)) && WantsArg(optstring, c) && letters + [c] != "-"
    ensures Run(argv, optstring, s) == Outcome(LetterItems(optstring, letters) + [('?', None)], None, |argv|)
  {
    var n := |argv|;
    var inside, ending := State(n, None, Some([c])), State(n, None, Some(""));
    ReadFront(argv, optstring, s, letters, [c]);
    ReadMissing(argv, optstring, inside, c);
    RunStops(argv, optstring, ending);
    hide Run, LetterItems, WantsArg;
    var missing: seq<Item> := [('?', None)];
    assert missing + [] == missing;
  }

  lemma BeforeEnd(a: seq<Item>, b: seq<Item>, k: nat)
    ensures Before(a, Outcome(b, None, k)) == Outcome(a + b, None, k)
  {
  }

  lemma JoinedTwice(a: seq<Item>, b: seq<Item>, c: seq<Item>)
    ensures a + (b + c) == a + b + c
  {
  }

  /** "-o63" is the letter o with the argument "63", and "-rd 5" the letter r and the letter d with "5". */
  lemma OffsetOption()
    ensures Run(["fls", "-o63", "-rd", "5", "img"], "o:rd:", State(0, None, None))
         == Outcome([('o', Some("63")), ('r', None), ('d', Some("5"))], Some("img"), 4)
  {
    var optstring, options := "o:rd:", [Attached("", 'o', "63"), Separate("r", 'd', "5")];
    assert FirstAt(optstring, 'o', 0) && FirstAt(optstring, 'r', 2) && FirstAt(optstring, 'd', 3);
    assert !WantsArg(optstring, 'r');
    assert options[1..] == [Separate("r", 'd', "5")] && options[1..][1..] == [];
    assert "-" + ("" + ("o" + "63")) == "-o63" && "-" + ("r" + "d") == "-rd";
    assert LetterItems(optstring, "r") == [('r', None)];
    var items := [('o', Some("63")), ('r', None), ('d', Some("5"))];
    hide Run, WantsArg;
    assert CommandLine(options) == ["-o63", "-rd", "5"];
    assert AllItems(optstring, options) == items;
    assert ["fls"] + CommandLine(options) + ["img"] == ["fls", "-o63", "-rd", "5", "img"];
    hide CommandLine, AllItems;
    ParsingInvertsWriting("fls", options, ["img"], optstring, State(0, None, None));
  }
}

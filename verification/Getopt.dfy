/** The option parser of tsk/base/XGetopt.c. */
module OptionSteps {
  import opened Options

  /** The globals optind and optarg, and the static pointer into the element being read: the
      characters it still points at, or None when it is null. */
  datatype State = State(optind: nat, optarg: Option<string>, next: Option<string>) {
    /** No characters are left of the last element. */
    predicate AtBoundary() { next == None || next == Some("") }
  }

  /** The state a call begins with: an index of 0 starts a new command line behind the program name. */
  function Begin(s: State): State {
    if s.optind == 0 then State(1, None, None) else s.(optarg := None)
  }

  /** strchr: the first position of a letter, or -1. */
  function Find(optstring: string, c: char): (k: int)
    ensures -1 <= k < |optstring|
    ensures k >= 0 ==> optstring[k] == c
    decreases |optstring|
  {
    if optstring == [] then -1
    else if optstring[0] == c then 0
    else
      var k := Find(optstring[1..], c);
      if k < 0 then -1 else k + 1
  }

  predicate Known(optstring: string, c: char) { c != ':' && Find(optstring, c) >= 0 }

  predicate TakesArg(optstring: string, c: char) {
    Known(optstring, c) && Find(optstring, c) + 1 < |optstring| && optstring[Find(optstring, c) + 1] == ':'
  }

  function ArgAt(argv: seq<string>, k: nat): Option<string> { if k < |argv| then Some(argv[k]) else None }

  /** The element is read letter by letter. */
  predicate IsCluster(element: string) { |element| >= 2 && element[0] == '-' && element != "--" }

  /** The result of a call, None for EOF, and the state it leaves. */
  datatype Call = Call(result: Option<char>, after: State)

  /** A call that reads the letter the pointer is at. */
  function Letter(argv: seq<string>, optstring: string, optind: nat, rest: string): Call
    requires rest != ""
  {
    var c, tail := rest[0], rest[1..];
    if !Known(optstring, c) then Call(Some('?'), State(optind, None, Some(tail)))
    else if !TakesArg(optstring, c) then Call(Some(c), State(optind, None, Some(tail)))
    else if tail != "" then Call(Some(c), State(optind, Some(tail), None))
    else if optind < |argv| then Call(Some(c), State(optind + 1, Some(argv[optind]), Some("")))
    else Call(Some('?'), State(optind, None, Some("")))
  }

  function Step(argv: seq<string>, optstring: string, before: State): Call {
    var s := Begin(before);
    if !s.AtBoundary() then Letter(argv, optstring, s.optind, s.next.value)
    else if s.optind < |argv| && IsCluster(argv[s.optind]) then
      Letter(argv, optstring, s.optind + 1, argv[s.optind][1..])
    else
      var optind := if s.optind < |argv| && argv[s.optind] == "--" then s.optind + 1 else s.optind;
      Call(None, State(optind, ArgAt(argv, optind), s.next))
  }

  // ----- every run ends

  /** The characters of the elements from k on, and one more for each of them. */
  function UnreadFrom(argv: seq<string>, k: nat): nat
    decreases |argv| - k
  {
    if k >= |argv| then 0 else |argv[k]| + 1 + UnreadFrom(argv, k + 1)
  }

  function Unread(argv: seq<string>, before: State): nat {
    var s := Begin(before);
    (if s.next.Some? then |s.next.value| else 0) + UnreadFrom(argv, s.optind)
  }

  lemma LetterReads(argv: seq<string>, optstring: string, optind: nat, rest: string)
    requires rest != "" && optind > 0
    ensures var call := Letter(argv, optstring, optind, rest);
            call.result.Some? && call.after.optind > 0
            && Unread(argv, call.after) < |rest| + UnreadFrom(argv, optind)
  {
    hide Find, Known, TakesArg;
    assert optind < |argv| ==> UnreadFrom(argv, optind) == |argv[optind]| + 1 + UnreadFrom(argv, optind + 1);
  }

  lemma StepReads(argv: seq<string>, optstring: string, s: State)
    ensures var call := Step(argv, optstring, s);
            call.result.Some? ==> Unread(argv, call.after) < Unread(argv, s) && call.after.optind > 0
  {
    var b := Begin(s);
    if !b.AtBoundary() {
      LetterReads(argv, optstring, b.optind, b.next.value);
    } else if b.optind < |argv| && IsCluster(argv[b.optind]) {
      LetterReads(argv, optstring, b.optind + 1, argv[b.optind][1..]);
      assert UnreadFrom(argv, b.optind) == |argv[b.optind]| + 1 + UnreadFrom(argv, b.optind + 1);
    }
    hide Letter;
  }

  /** What the caller of one run sees: each result with its optarg, and the final optarg and optind. */
  datatype Outcome = Outcome(items: seq<(char, Option<string>)>, optarg: Option<string>, optind: nat)

  /** Calls until EOF. */
  function Run(argv: seq<string>, optstring: string, s: State): Outcome
    decreases Unread(argv, s)
  {
    var call := Step(argv, optstring, s);
    if call.result.None? then Outcome([], call.after.optarg, call.after.optind)
    else
      StepReads(argv, optstring, s);
      Preceded((call.result.value, call.after.optarg), Run(argv, optstring, call.after))
  }

  function Preceded(item: (char, Option<string>), later: Outcome): Outcome { later.(items := [item] + later.items) }

  // ----- splitting a cluster

  /** The element "-ab..." at j replaced by the two elements "-a" and "-b...". */
  function SplitAt(argv: seq<string>, j: nat): seq<string>
    requires j < |argv| && |argv[j]| > 2
  {
    argv[..j] + [argv[j][..2], "-" + argv[j][2..]] + argv[j + 1..]
  }

  /** What the split needs: the first letter takes no argument, and neither part reads "--". */
  predicate MaySplit(optstring: string, element: string)
    requires |element| > 2
  {
    !TakesArg(optstring, element[1]) && element[1] != '-' && element[2..] != "-"
  }

  function Shifted(o: Outcome): Outcome { o.(optind := o.optind + 1) }

  /** The later command line has the same elements, one place further on. */
  ghost predicate OneFurther(argv: seq<string>, more: seq<string>, from: nat) {
    |more| == |argv| + 1 && forall k :: from <= k < |argv| ==> more[k + 1] == argv[k]
  }

  function Moved(s: State): State { s.(optind := s.optind + 1) }

  /** One call on a command line moved by one place. */
  lemma StepMoved(argv: seq<string>, more: seq<string>, optstring: string, s: State)
    requires s.optind > 0 && OneFurther(argv, more, s.optind)
    ensures var call := Step(argv, optstring, s);
            Step(more, optstring, Moved(s)) == Call(call.result, Moved(call.after)) && call.after.optind >= s.optind
  {
    hide Find, Known, TakesArg;
    assert s.optind < |argv| ==> more[s.optind + 1] == argv[s.optind];
    assert s.optind + 1 < |argv| ==> more[s.optind + 2] == argv[s.optind + 1];
  }

  lemma {:induction false} RunMoved(argv: seq<string>, more: seq<string>, optstring: string, s: State)
    requires s.optind > 0 && OneFurther(argv, more, s.optind)
    ensures Run(more, optstring, Moved(s)) == Shifted(Run(argv, optstring, s))
    decreases Unread(argv, s)
  {
    var call := Step(argv, optstring, s);
    StepMoved(argv, more, optstring, s);
    if call.result.Some? {
      StepReads(argv, optstring, s);
      hide Step, Unread;
      RunMoved(argv, more, optstring, call.after);
    }
  }

  lemma RunFrom(argv: seq<string>, optstring: string, s: State)
    ensures var (call, run) := (Step(argv, optstring, s), Run(argv, optstring, s));
            if call.result.None? then run == Outcome([], call.after.optarg, call.after.optind)
            else run == Preceded((call.result.value, call.after.optarg), Run(argv, optstring, call.after))
  {
    hide Step;
  }

  lemma SplitElements(argv: seq<string>, j: nat)
    requires j < |argv| && |argv[j]| > 2
    ensures var more := SplitAt(argv, j);
            && |more| == |argv| + 1 && more[j] == argv[j][..2] && more[j + 1] == "-" + argv[j][2..]
            && OneFurther(argv, more, j + 1)
  {
  }

  /** The first call after the split, and the second when the first letter is read the same way. */
  lemma SplitSteps(argv: seq<string>, optstring: string, s: State)
    requires s.AtBoundary() && 0 < s.optind < |argv| && |argv[s.optind]| > 2 && argv[s.optind][0] == '-'
    ensures var (j, more, element) := (s.optind, SplitAt(argv, s.optind), argv[s.optind]);
            var (one, two) := (Step(argv, optstring, s), Step(more, optstring, s));
            && one.result.Some?
            && (two.result.None? <==> element[1] == '-')
            && (element[1] != '-' && TakesArg(optstring, element[1]) ==> two.after.optarg != one.after.optarg)
            && (element[1] != '-' && !TakesArg(optstring, element[1]) ==>
                  && one == Call(two.result, State(j + 1, None, Some(element[2..])))
                  && two.after == State(j + 1, None, Some("")))
  {
    SplitElements(argv, s.optind);
    hide Find, Known, TakesArg, SplitAt;
    assert argv[s.optind][1..][1..] == argv[s.optind][2..];
    assert argv[s.optind][..2] == "--" <==> argv[s.optind][1] == '-';
    assert |"-" + argv[s.optind][2..]| == |argv[s.optind][2..]| + 1;
  }

  /** The second half of the split element is read like the rest of the cluster. */
  lemma SecondHalf(more: seq<string>, optstring: string, j: nat, rest: string)
    requires j + 1 < |more| && more[j + 1] == "-" + rest && rest != ""
    ensures var here := Step(more, optstring, State(j + 1, None, Some("")));
            if rest == "-" then here.result == None else here == Step(more, optstring, State(j + 2, None, Some(rest)))
  {
    hide Letter;
    assert ("-" + rest)[1..] == rest;
    assert "-" + "-" == "--";
  }

  /** Splitting a cluster that a call is about to read changes nothing but the final index, exactly
      when the split is a fair one. */
  lemma SplitHere(argv: seq<string>, optstring: string, s: State)
    requires s.AtBoundary() && 0 < s.optind < |argv| && |argv[s.optind]| > 2 && argv[s.optind][0] == '-'
    ensures Run(SplitAt(argv, s.optind), optstring, s) == Shifted(Run(argv, optstring, s))
       <==> MaySplit(optstring, argv[s.optind])
  {
    var j, more, element := s.optind, SplitAt(argv, s.optind), argv[s.optind];
    var rest := element[2..];
    SplitSteps(argv, optstring, s);
    SplitElements(argv, j);
    RunFrom(argv, optstring, s);
    RunFrom(more, optstring, s);
    hide Step, Run, SplitAt, TakesArg;
    var whole, parts := Run(argv, optstring, s), Run(more, optstring, s);
    if element[1] == '-' {
      assert |parts.items| == 0 < |whole.items|;
    } else if TakesArg(optstring, element[1]) {
      assert parts.items[0] != whole.items[0];
    } else {
      var inside, outside := State(j + 1, None, Some(rest)), State(j + 1, None, Some(""));
      SecondHalf(more, optstring, j, rest);
      RunFrom(more, optstring, outside);
      RunFrom(argv, optstring, inside);
      StepReadsInside(argv, optstring, inside);
      if rest == "-" {
        assert |parts.items| == 1 < |whole.items|;
      } else {
        RunFrom(more, optstring, Moved(inside));
        RunMoved(argv, more, optstring, inside);
        assert Run(more, optstring, outside) == Shifted(Run(argv, optstring, inside));
      }
    }
  }

  lemma StepReadsInside(argv: seq<string>, optstring: string, s: State)
    requires s.optind > 0 && !s.AtBoundary()
    ensures Step(argv, optstring, s).result.Some?
  {
    hide Find, Known, TakesArg;
  }

  /** The run comes to the element at j with nothing left of the one before: neither does it end
      earlier nor is the element taken as an argument. */
  ghost predicate Reaches(argv: seq<string>, optstring: string, s: State, j: nat)
    decreases Unread(argv, s)
  {
    var call := Step(argv, optstring, s);
    StepReads(argv, optstring, s);
    || (Begin(s).AtBoundary() && Begin(s).optind == j)
    || (call.result.Some? && call.after.optind <= j && Reaches(argv, optstring, call.after, j))
  }

  /** Calls that stay in front of j do not see what comes after it. */
  lemma StepBefore(argv: seq<string>, more: seq<string>, optstring: string, s: State, j: nat)
    requires j < |argv| && j < |more| && forall k :: 0 <= k < j ==> more[k] == argv[k]
    requires Step(argv, optstring, s).result.Some? && Step(argv, optstring, s).after.optind <= j
    requires !(Begin(s).AtBoundary() && Begin(s).optind == j)
    ensures Step(more, optstring, s) == Step(argv, optstring, s)
  {
    hide Find, Known, TakesArg;
  }

  lemma RunBegins(argv: seq<string>, optstring: string, s: State)
    ensures Run(argv, optstring, Begin(s)) == Run(argv, optstring, s)
  {
    RunFrom(argv, optstring, s);
    RunFrom(argv, optstring, Begin(s));
    hide Run, Letter;
  }

  lemma PrecededSplit(item: (char, Option<string>), parts: Outcome, whole: Outcome)
    ensures Preceded(item, parts) == Shifted(Preceded(item, whole)) <==> parts == Shifted(whole)
  {
    assert ([item] + parts.items)[1..] == parts.items && ([item] + whole.items)[1..] == whole.items;
  }

  /** Replacing a cluster of a whole command line by two elements keeps every result and every
      optarg and moves the final index by one, exactly when the split is a fair one. */
  lemma {:induction false} SplitCluster(argv: seq<string>, optstring: string, s: State, j: nat)
    requires 0 < j < |argv| && |argv[j]| > 2 && argv[j][0] == '-'
    requires Reaches(argv, optstring, s, j)
    ensures Run(SplitAt(argv, j), optstring, s) == Shifted(Run(argv, optstring, s)) <==> MaySplit(optstring, argv[j])
    decreases Unread(argv, s)
  {
    var more := SplitAt(argv, j);
    if Begin(s).AtBoundary() && Begin(s).optind == j {
      RunBegins(argv, optstring, s);
      RunBegins(more, optstring, s);
      SplitHere(argv, optstring, Begin(s));
    } else {
      var call := Step(argv, optstring, s);
      StepReads(argv, optstring, s);
      StepBefore(argv, more, optstring, s, j);
      hide Step, Unread, Run, SplitAt, MaySplit, Preceded, Shifted;
      SplitCluster(argv, optstring, call.after, j);
      RunFrom(argv, optstring, s);
      RunFrom(more, optstring, s);
      PrecededSplit((call.result.value, call.after.optarg), Run(more, optstring, call.after),
                    Run(argv, optstring, call.after));
    }
  }

  /** "-ab" is not "-a -b" when a takes an argument: the argument is then "b", and not "-b". */
  lemma CombinedIsNotSeparate()
    ensures var (s, separate) := (State(0, None, None), SplitAt(["program", "-ab"], 1));
            && separate == ["program", "-a", "-b"]
            && Run(separate, "a:b", s) != Shifted(Run(["program", "-ab"], "a:b", s))
  {
    var argv, s := ["program", "-ab"], State(0, None, None);
    assert TakesArg("a:b", 'a') by {
      assert Find("a:b", 'a') == 0;
    }
    assert argv[1][..2] == "-a" && argv[1][2..] == "b" && "-" + "b" == "-b";
    hide Run, TakesArg, Letter;
    SplitCluster(argv, "a:b", s, 1);
  }
}

module Getopt {
  import opened Options
  import opened OptionSteps

  /** The items read and the rest of the run are the whole run. */
  predicate ReadSoFar(items: seq<(char, Option<string>)>, later: Outcome, whole: Outcome) {
    later.(items := items + later.items) == whole
  }

  lemma ReadOne(items: seq<(char, Option<string>)>, later: Outcome, whole: Outcome)
    requires ReadSoFar(items, later, whole)
    ensures later.items == [] ==> Outcome(items, later.optarg, later.optind) == whole
    ensures forall item, rest :: later == Preceded(item, rest) ==> ReadSoFar(items + [item], rest, whole)
  {
    assert items + [] == items;
    forall item, rest | later == Preceded(item, rest) ensures ReadSoFar(items + [item], rest, whole) {
      assert items + ([item] + rest.items) == items + [item] + rest.items;
    }
  }

  class Parser {
    var optarg: Option<string>
    var optind: nat
    var next: Option<string>

    function Current(): State
      reads this
    {
      State(optind, optarg, next)
    }

    constructor ()
      ensures Current() == State(0, None, None)
    {
      optarg, optind, next := None, 0, None;
    }

    /** tsk_getopt: the next option letter, '?' for one that is not known or misses its argument,
        or None for EOF. */
    method TskGetopt(argv: seq<string>, optstring: string) returns (result: Option<char>)
      modifies this
      ensures Call(result, Current()) == Step(argv, optstring, old(Current()))
    {
      hide Find;
      if optind == 0 {
        next := None;
      }
      optarg := None;
      if next == None || next.value == "" {
        if optind == 0 {
          optind := optind + 1;
        }
        if optind >= |argv| || |argv[optind]| == 0 || argv[optind][0] != '-' || |argv[optind]| == 1 {
          optarg := None;
          if optind < |argv| {
            optarg := Some(argv[optind]);
          }
          return None;
        }
        if argv[optind] == "--" {
          optind := optind + 1;
          optarg := None;
          if optind < |argv| {
            optarg := Some(argv[optind]);
          }
          return None;
        }
        next := Some(argv[optind][1..]);
        optind := optind + 1;
      }
      var c := next.value[0];
      next := Some(next.value[1..]);
      var cp := Find(optstring, c);
      if cp < 0 || c == ':' {
        return Some('?');
      }
      cp := cp + 1;
      if cp < |optstring| && optstring[cp] == ':' {
        if next.value != "" {
          optarg := next;
          next := None;
        } else if optind < |argv| {
          optarg := Some(argv[optind]);
          optind := optind + 1;
        } else {
          return Some('?');
        }
      }
      return Some(c);
    }

    /** The caller's loop: calls until EOF. */
    method ReadOptions(argv: seq<string>, optstring: string) returns (items: seq<(char, Option<string>)>)
      modifies this
      ensures Outcome(items, optarg, optind) == Run(argv, optstring, old(Current()))
    {
      items := [];
      while true
        invariant ReadSoFar(items, Run(argv, optstring, Current()), Run(argv, optstring, old(Current())))
        decreases Unread(argv, Current())
      {
        hide Step, Unread, Run, ReadSoFar;
        StepReads(argv, optstring, Current());
        RunFrom(argv, optstring, Current());
        ghost var later, whole := Run(argv, optstring, Current()), Run(argv, optstring, old(Current()));
        var c := TskGetopt(argv, optstring);
        ReadOne(items, later, whole);
        if c.None? {
          return;
        }
        items := items + [(c.value, optarg)];
      }
    }
  }
}

/** What the display codes mean, one by one: where the cursor goes and what is written. */
module Codes {
  import opened Terminal
  import opened Emulator

  datatype Side = Leftward | Rightward | Upward | Downward

  /** What a caller of the display manager asks for. */
  datatype Op =
    | Move(line: nat, col: nat)
    | Home
    | Return
    | Arrow(side: Side, n: nat)
    | Show(chr: int, n: nat)

  function ArrowCode(side: Side): int {
    match side
    case Leftward => VCCLEF
    case Rightward => VCCRIT
    case Upward => VCCUP
    case Downward => VCCDWN
  }

  /** How it is sent. */
  function Coded(op: Op): seq<int> {
    match op
    case Move(line, col) => [VCCAAD, 33 + col, 33 + line]
    case Home => [VCCHOM]
    case Return => [VCCRET]
    case Arrow(side, n) => [VCCARG, BLANK + n, ArrowCode(side)]
    case Show(chr, n) => [VCCARG, BLANK + n, chr]
  }

  /** What can be sent so: places on the screen, counts of one at least, and all of it in bytes. */
  predicate Sendable(op: Op, e: Emu) {
    match op
    case Move(line, col) => line < e.h && col < e.w && 33 + line < 256 && 33 + col < 256
    case Arrow(_, n) => 1 <= n && BLANK + n < 256
    case Show(chr, n) => BLANK <= chr < 256 && 1 <= n && BLANK + n < 256
    case _ => true
  }

  // ----- what it does -----

  /** One step, round the edge of the screen. */
  function Stepped(side: Side, e: Emu): Emu {
    match side
    case Leftward => e.(col := if e.col == 0 then e.w - 1 else e.col - 1)
    case Rightward => e.(col := if e.col == e.w - 1 then 0 else e.col + 1)
    case Upward => e.(line := if e.line == 0 then e.h - 1 else e.line - 1)
    case Downward => e.(line := if e.line == e.h - 1 then 0 else e.line + 1)
  }

  function Walked(side: Side, n: nat, e: Emu): Emu {
    if n == 0 then e else Walked(side, n - 1, Stepped(side, e))
  }

  /** One character: below the line that was filled by the one before, unless that was the last line. */
  function Shown(chr: int, e: Emu): Emu
    requires e.Valid() && e.state in {0, 1}
  {
    var line := if e.state == 1 && e.line < e.h - 1 then e.line + 1 else e.line;
    assert 0 <= line * e.w + e.col < |e.image| by {
      e.Unwrap().OnScreen();
    }
    var last := e.col == e.w - 1;
    e.(image := e.image[line * e.w + e.col := chr], line := line, col := if last then 0 else e.col + 1,
       state := if last then 1 else 0)
  }

  lemma ShownIsPut(chr: int, e: Emu)
    requires e.Valid() && e.state in {0, 1}
    ensures Shown(chr, e) == e.Unwrap().Put(chr) && Shown(chr, e).Valid()
  {
  }

  /** Up to n characters, until the bottom right corner is filled. */
  function ShownUpTo(chr: int, n: nat, e: Emu): Emu
    requires e.Valid() && e.state in {0, 1}
  {
    if n == 0 then e
    else
      ShownIsPut(chr, e);
      var f := Shown(chr, e);
      if f.state == 1 && f.line == f.h - 1 then f else ShownUpTo(chr, n - 1, f)
  }

  function Done(op: Op, e: Emu): Emu
    requires e.Valid() && e.state in {0, 1}
  {
    match op
    case Move(line, col) => e.(line := line, col := col, state := 0)
    case Home => e.(line := 0, col := 0, state := 0)
    case Return => e.(col := 0, state := 0)
    case Arrow(side, n) => Walked(side, n, e.(state := 0))
    case Show(chr, n) => ShownUpTo(chr, n, e)
  }

  // ----- that the codes do it -----

  /** Steps round the edge come to the remainder. */
  lemma {:induction false} WalkedRound(side: Side, n: nat, e: Emu)
    requires 0 <= e.line < e.h && 0 <= e.col < e.w
    ensures Walked(side, n, e) ==
            match side
            case Leftward => e.(col := Round(e.col - n, e.w))
            case Rightward => e.(col := Round(e.col + n, e.w))
            case Upward => e.(line := Round(e.line - n, e.h))
            case Downward => e.(line := Round(e.line + n, e.h))
    ensures var f := Walked(side, n, e); 0 <= f.line < f.h == e.h && 0 <= f.col < f.w == e.w
    decreases n
  {
    hide Round;
    RoundOnce(e.col, e.w);
    RoundOnce(e.line, e.h);
    if n != 0 {
      var f := Stepped(side, e);
      WalkedRound(side, n - 1, f);
      RoundOnce(e.col - n, e.w);
      RoundOnce(e.col + n - e.w, e.w);
      RoundOnce(e.line - n, e.h);
      RoundOnce(e.line + n - e.h, e.h);
    }
  }

  lemma CornerLeft(e: Emu)
    requires e.Valid()
    ensures e.Left() == 1 <==> e.line == e.h - 1 && e.col == e.w - 1
  {
    hide Cells;
    e.RoomInLine();
  }

  /** Characters shown one by one are a run cut off at the corner. */
  lemma {:induction false} ShownIsRun(chr: int, n: nat, e: Emu)
    requires e.Valid() && e.state in {0, 1} && n >= 1
    ensures ShownUpTo(chr, n, e) == e.Unwrap().PutAll(chr, if n <= e.Unwrap().Left() then n else e.Unwrap().Left())
    decreases n
  {
    hide Cells, Emu.Put, Shown, Emu.Left;
    var u := e.Unwrap();
    var f := u.Put(chr);
    var room := u.Left();
    ShownIsPut(chr, e);
    CornerLeft(u);
    CornerPut(u, chr);
    if room == 1 || n == 1 {
      assert u.PutAll(chr, 1) == f.PutAll(chr, 0) == f;
    } else {
      PutRoom(u, chr);
      ShownIsRun(chr, n - 1, f);
      UnwrapThenType(f, chr, if n <= room then n - 1 else room - 1);
    }
  }

  lemma CornerPut(u: Emu, chr: int)
    requires u.Valid() && u.state == 0
    ensures u.Put(chr).state == 1 && u.Put(chr).line == u.h - 1 <==> u.line == u.h - 1 && u.col == u.w - 1
  {
    hide Cells;
  }

  /** A code that is part of what came before it, or a command. */
  predicate Fits(e: Emu, c: int) {
    0 <= c < 256 && (!e.Recognises(c) || Emu.IsCommand(c))
  }

  lemma Fed(e: Emu, c: int, rest: seq<int>)
    requires e.Valid() && Fits(e, c) && forall i :: 0 <= i < |rest| ==> 0 <= rest[i] < 256
    ensures Run(e, [c] + rest) == Run(e.Feed(c), rest)
    ensures Accepts(e.Feed(c), Written, rest) ==> Accepts(e, Written, [c] + rest)
  {
    hide Emu.Feed, Emu.Recognises;
    assert ([c] + rest)[1..] == rest;
  }

  lemma FedThree(e: Emu, a: int, b: int, c: int, rest: seq<int>)
    requires e.Valid() && Fits(e, a) && Fits(e.Feed(a), b) && Fits(e.Feed(a).Feed(b), c)
    requires forall i :: 0 <= i < |rest| ==> 0 <= rest[i] < 256
    ensures Run(e, [a, b, c] + rest) == Run(e.Feed(a).Feed(b).Feed(c), rest)
    ensures Accepts(e.Feed(a).Feed(b).Feed(c), Written, rest) ==> Accepts(e, Written, [a, b, c] + rest)
  {
    hide Emu.Feed, Emu.Recognises, Emu.Valid, Run, Accepts;
    Split([a, b, c] + rest, a, [b, c] + rest);
    Fed(e, a, [b, c] + rest);
    FedTwo(e.Feed(a), b, c, rest);
  }

  lemma FedTwo(e: Emu, b: int, c: int, rest: seq<int>)
    requires e.Valid() && Fits(e, b) && Fits(e.Feed(b), c)
    requires forall i :: 0 <= i < |rest| ==> 0 <= rest[i] < 256
    ensures Run(e, [b, c] + rest) == Run(e.Feed(b).Feed(c), rest)
    ensures Accepts(e.Feed(b).Feed(c), Written, rest) ==> Accepts(e, Written, [b, c] + rest)
  {
    hide Emu.Feed, Emu.Valid, Run, Accepts;
    Split([b, c] + rest, b, [c] + rest);
    Fed(e, b, [c] + rest);
    Fed(e.Feed(b), c, rest);
  }

  lemma Split(s: seq<int>, a: int, t: seq<int>)
    requires |s| == |t| + 1 && s[0] == a && forall i :: 0 <= i < |t| ==> s[i + 1] == t[i]
    ensures s == [a] + t
  {
    assert forall i :: 1 <= i < |s| ==> s[i] == t[i - 1];
  }

  /** An address. */
  lemma Addressed(e: Emu, line: nat, col: nat)
    requires e.Valid() && e.state in {0, 1} && e.arg == 1 && Sendable(Move(line, col), e)
    ensures Fits(e, VCCAAD) && Fits(e.Feed(VCCAAD), 33 + col) && Fits(e.Feed(VCCAAD).Feed(33 + col), 33 + line)
    ensures e.Feed(VCCAAD).Feed(33 + col).Feed(33 + line) == Done(Move(line, col), e)
  {
    hide Cells;
  }

  /** A count. */
  lemma Counted(e: Emu, n: nat)
    requires e.Valid() && e.state in {0, 1} && 1 <= n && BLANK + n < 256
    ensures Fits(e, VCCARG) && Fits(e.Feed(VCCARG), BLANK + n)
    ensures e.Feed(VCCARG).Feed(BLANK + n) == e.(arg := n)
  {
    hide Cells;
  }

  lemma Arrowed(e: Emu, side: Side, n: nat)
    requires e.Valid() && e.state in {0, 1} && 1 <= n && e.arg == 1
    ensures Fits(e.(arg := n), ArrowCode(side)) && e.(arg := n).Feed(ArrowCode(side)) == Done(Arrow(side, n), e)
    ensures Done(Arrow(side, n), e).Valid() && Done(Arrow(side, n), e).state == 0 && Done(Arrow(side, n), e).arg == 1
  {
    hide Cells, Round;
    WalkedRound(side, n, e.(state := 0));
  }

  lemma ShownFed(e: Emu, chr: int, n: nat)
    requires e.Valid() && e.state in {0, 1} && 1 <= n && e.arg == 1 && BLANK <= chr < 256
    ensures Fits(e.(arg := n), chr) && e.(arg := n).Feed(chr) == Done(Show(chr, n), e)
    ensures Done(Show(chr, n), e).Valid() && Done(Show(chr, n), e).state in {0, 1} && Done(Show(chr, n), e).arg == 1
  {
    hide Cells, Emu.Put, Emu.PutAll, Emu.Left;
    ShownIsRun(chr, n, e);
    var u, f := e.Unwrap(), e.(arg := n);
    assert f.Unwrap() == u.(arg := n) && f.Unwrap().Left() == u.Left() by {
      SameRoom(u, n);
    }
    var m := if n <= u.Left() then n else u.Left();
    PutAllArg(u.(arg := n), chr, m);
  }

  lemma SameRoom(u: Emu, n: nat)
    requires u.Valid() && n >= 1 && u.state == 0
    ensures u.(arg := n).Left() == u.Left()
  {
  }

  /** One thing asked for is done, and the codes after it go on from there. */
  lemma OneOp(op: Op, e: Emu, rest: seq<int>)
    requires e.Valid() && e.state in {0, 1} && e.arg == 1 && Sendable(op, e)
    requires forall i :: 0 <= i < |rest| ==> 0 <= rest[i] < 256
    ensures Done(op, e).Valid() && Done(op, e).state in {0, 1} && Done(op, e).arg == 1
    ensures Run(e, Coded(op) + rest) == Run(Done(op, e), rest)
    ensures Accepts(Done(op, e), Written, rest) ==> Accepts(e, Written, Coded(op) + rest)
  {
    hide Cells, Run, Accepts, ShownUpTo, Walked, Emu.Repeated;
    match op
    case Move(line, col) =>
      Addressed(e, line, col);
      FedThree(e, VCCAAD, 33 + col, 33 + line, rest);
    case Home =>
      Fed(e, VCCHOM, rest);
    case Return =>
      Fed(e, VCCRET, rest);
    case Arrow(side, n) =>
      Counted(e, n);
      Arrowed(e, side, n);
      FedThree(e, VCCARG, BLANK + n, ArrowCode(side), rest);
    case Show(chr, n) =>
      Counted(e, n);
      ShownFed(e, chr, n);
      FedThree(e, VCCARG, BLANK + n, chr, rest);
  }

  // ----- streams -----

  function AllCoded(ops: seq<Op>): seq<int> {
    if ops == [] then [] else Coded(ops[0]) + AllCoded(ops[1..])
  }

  ghost predicate AllSendable(ops: seq<Op>, e: Emu) {
    forall op :: op in ops ==> Sendable(op, e)
  }

  ghost function AllDone(ops: seq<Op>, e: Emu): Emu
    requires e.Valid() && e.state in {0, 1} && e.arg == 1 && AllSendable(ops, e)
  {
    if ops == [] then e
    else
      SendableFirst(ops, e);
      OneOp(ops[0], e, []);
      DoneKeepsSize(ops[0], e);
      SendableStill(ops, e, Done(ops[0], e));
      AllDone(ops[1..], Done(ops[0], e))
  }

  lemma {:induction false} DoneKeepsSize(op: Op, e: Emu)
    requires e.Valid() && e.state in {0, 1}
    ensures Done(op, e).w == e.w && Done(op, e).h == e.h
  {
    hide Cells, Emu.Valid, Shown;
    match op
    case Arrow(side, n) => WalkedKeepsSize(side, n, e.(state := 0));
    case Show(chr, n) => ShownKeepsSize(chr, n, e);
    case _ =>
  }

  lemma {:induction false} WalkedKeepsSize(side: Side, n: nat, e: Emu)
    ensures Walked(side, n, e).w == e.w && Walked(side, n, e).h == e.h
    decreases n
  {
    if n != 0 {
      WalkedKeepsSize(side, n - 1, Stepped(side, e));
    }
  }

  lemma {:induction false} ShownKeepsSize(chr: int, n: nat, e: Emu)
    requires e.Valid() && e.state in {0, 1}
    ensures ShownUpTo(chr, n, e).w == e.w && ShownUpTo(chr, n, e).h == e.h
    decreases n
  {
    if n != 0 {
      ShownIsPut(chr, e);
      ShownKeepsSize(chr, n - 1, Shown(chr, e));
    }
  }

  lemma {:induction false} CodesAreBytes(ops: seq<Op>, e: Emu)
    requires AllSendable(ops, e)
    ensures forall i :: 0 <= i < |AllCoded(ops)| ==> 0 <= AllCoded(ops)[i] < 256
  {
    if ops != [] {
      assert ops[0] in ops && forall op :: op in ops[1..] ==> op in ops;
      CodesAreBytes(ops[1..], e);
      assert Sendable(ops[0], e);
      assert forall i :: 0 <= i < |Coded(ops[0])| ==> 0 <= Coded(ops[0])[i] < 256;
    }
  }

  /** Whatever is asked for in one stream is done, one thing after the other. */
  lemma {:induction false} StreamDone(ops: seq<Op>, e: Emu)
    requires e.Valid() && e.state in {0, 1} && e.arg == 1 && AllSendable(ops, e)
    ensures forall i :: 0 <= i < |AllCoded(ops)| ==> 0 <= AllCoded(ops)[i] < 256
    ensures Accepts(e, Written, AllCoded(ops)) && Run(e, AllCoded(ops)) == AllDone(ops, e)
    decreases |ops|
  {
    hide Cells, Done, Coded, Emu.Valid;
    CodesAreBytes(ops, e);
    if ops != [] {
      SendableFirst(ops, e);
      SendableStill(ops, e, e);
      CodesAreBytes(ops[1..], e);
      OneOp(ops[0], e, AllCoded(ops[1..]));
      DoneKeepsSize(ops[0], e);
      SendableStill(ops, e, Done(ops[0], e));
      StreamDone(ops[1..], Done(ops[0], e));
    }
  }

  lemma SendableFirst(ops: seq<Op>, e: Emu)
    requires ops != [] && AllSendable(ops, e)
    ensures Sendable(ops[0], e)
  {
    assert ops[0] in ops;
  }

  lemma SendableStill(ops: seq<Op>, e: Emu, f: Emu)
    requires ops != [] && AllSendable(ops, e) && f.w == e.w && f.h == e.h
    ensures AllSendable(ops[1..], f)
  {
    forall op | op in ops[1..]
      ensures Sendable(op, f)
    {
      assert op in ops;
    }
  }
}

/**
 The LED pattern player: it reads one delay at a time from a pattern, requests a timer for it and toggles
 the LED; each timer event takes it one delay further, and at the end it idles or starts over.
 */
module Blinky {
  import opened Division
  import opened PatternText

  /** The player with what it has asked of its surroundings: the delays requested so far, how often the LED
      was toggled, and whether a pattern timer is in flight. */
  datatype Player = Player(pattern: Text, cursor: nat, restart: bool, started: bool,
                           requests: seq<int>, toggles: nat, timer: bool)

  predicate Loaded(p: Player) {
    Terminated(p.pattern) && p.cursor < |p.pattern|
  }

  /** One step of the player, and whether there was a delay to request. */
  function Step(p: Player): (r: (Player, bool))
    requires Loaded(p)
    ensures Loaded(r.0)
  {
    var (delay, next) := NextInt(p.pattern, p.cursor);
    if delay < 0 then (p.(cursor := next, started := false), false)
    else (p.(cursor := next, started := true, requests := p.requests + [delay], toggles := p.toggles + 1,
             timer := true),
          true)
  }

  function Start(p: Player, pattern: Text, restart: bool): (r: (Player, bool))
    ensures Loaded(r.0)
  {
    Step(p.(pattern := pattern + [NUL], cursor := 0, restart := restart, started := false))
  }

  /** A pattern timer event. */
  function Event(p: Player): (p': Player)
    requires Loaded(p)
    ensures Loaded(p')
  {
    var (p1, success) := Step(p.(timer := false));
    if !success && p.restart then Step(p1.(cursor := 0)).0 else p1
  }

  class BlinkyPlayer {
    var pattern: Text           // empty while no pattern is loaded
    var currPattern: nat
    var started: bool
    var restart: bool
    ghost var requests: seq<int>
    ghost var toggles: nat
    ghost var timer: bool

    ghost function View(): Player
      reads this
    {
      Player(pattern, currPattern, restart, started, requests, toggles, timer)
    }

    constructor ()
      ensures View() == Player([], 0, false, false, [], 0, false)
    {
      pattern, currPattern, started, restart, requests, toggles, timer := [], 0, false, false, [], 0, false;
    }

    method Stop()
      modifies this`pattern, this`currPattern, this`started
      ensures pattern == [] && currPattern == 0 && !started
    {
      pattern, currPattern, started := [], 0, false;
    }

    method GetNextInt() returns (result: int)
      requires Loaded(View())
      modifies this`currPattern
      ensures (result, currPattern) == NextInt(pattern, old(currPattern))
    {
      result := -1;
      var (value, end) := Strtol(pattern, currPattern);
      if pattern[currPattern] != NUL {
        if pattern[end] == COLON {
          end := end + 1;
          result := value;
        } else if pattern[end] == NUL {
          result := value;
        }
      }
      currPattern := end;
    }

    method RequestTimedEvent(delay: int)
      modifies this`requests, this`timer
      ensures requests == old(requests) + [delay] && timer
    {
      requests := requests + [delay];
      timer := true;
    }

    method RunStep() returns (success: bool)
      requires Loaded(View())
      modifies this
      ensures (View(), success) == Step(old(View()))
    {
      var delay := GetNextInt();
      if delay < 0 {
        started := false;
        return false;
      }
      RequestTimedEvent(delay);
      toggles := toggles + 1;
      started := true;
      return true;
    }

    method StartPattern(text: Text, patternRestart: bool) returns (success: bool)
      modifies this
      ensures (View(), success) == Start(old(View()), text, patternRestart)
    {
      restart := patternRestart;
      Stop();
      pattern := text + [NUL];
      currPattern := 0;
      success := RunStep();
    }

    method HandlePatternEvent()
      requires Loaded(View()) && timer
      modifies this
      ensures View() == Event(old(View()))
    {
      timer := false;
      var success := RunStep();
      if !success && restart {
        currPattern := 0;
        var _ := RunStep();
      }
    }
  }

  /** The player after a start and `n` timer events. */
  function Play(p: Player, pattern: Text, restart: bool, n: nat): (p': Player)
    ensures Loaded(p')
  {
    if n == 0 then Start(p, pattern, restart).0 else Event(Play(p, pattern, restart, n - 1))
  }

  /** The delays a pattern asks for. */
  function Delays(pattern: Text): seq<int> {
    Tokens(pattern + [NUL], 0)
  }

  /** The player after requesting delay `j` of its pattern. */
  function Requested(p: Player, j: nat): Player
    requires Loaded(p) && j < |Tokens(p.pattern, 0)|
  {
    p.(cursor := Position(p.pattern, j + 1), started := true, requests := p.requests + [Tokens(p.pattern, 0)[j]],
       toggles := p.toggles + 1, timer := true)
  }

  /** A step with the cursor behind `i` accepted delays requests the next one. */
  lemma StepInside(p: Player, i: nat)
    requires Loaded(p) && i < |Tokens(p.pattern, 0)| && p.cursor == Position(p.pattern, i)
    ensures Step(p) == (Requested(p, i), true)
  {
    var next := Position(p.pattern, i + 1);
    assert next == NextInt(p.pattern, p.cursor).1;
    hide NextInt, Tokens, Position, Step;
    TokensByPosition(p.pattern, i);
    StepWith(p, Tokens(p.pattern, 0)[i], next);
  }

  lemma StepWith(p: Player, delay: int, next: nat)
    requires Loaded(p) && next < |p.pattern| && NextInt(p.pattern, p.cursor) == (delay, next) && delay >= 0
    ensures Step(p) == (p.(cursor := next, started := true, requests := p.requests + [delay],
                           toggles := p.toggles + 1, timer := true),
                        true)
  {
    hide NextInt;
  }

  /** A step with the cursor behind the last accepted delay makes the player idle. */
  lemma StepPastTheEnd(p: Player)
    requires Loaded(p) && p.cursor == Position(p.pattern, |Tokens(p.pattern, 0)|)
    ensures !Step(p).1 && Step(p).0 == p.(cursor := Step(p).0.cursor, started := false)
  {
    hide NextInt, Tokens, Position;
    TokensByPosition(p.pattern, |Tokens(p.pattern, 0)|);
  }

  lemma EventInside(p: Player, i: nat)
    requires Loaded(p) && i < |Tokens(p.pattern, 0)| && p.cursor == Position(p.pattern, i)
    ensures Event(p) == Requested(p, i)
  {
    hide Tokens, Position, Step;
    StepInside(p.(timer := false), i);
  }

  /** A player that has requested the delays `requested` from the buffer, and stands behind `position` of it. */
  function Playing(p: Player, buf: Text, restart: bool, requested: seq<int>, position: nat): (p': Player)
    requires Terminated(buf)
    ensures Loaded(p')
  {
    Player(buf, Position(buf, position), restart, true, p.requests + requested, p.toggles + |requested|, true)
  }

  lemma PlayingOn(p: Player, buf: Text, restart: bool, requested: seq<int>, position: nat, j: nat)
    requires Terminated(buf) && j < |Tokens(buf, 0)|
    ensures Requested(Playing(p, buf, restart, requested, position), j)
         == Playing(p, buf, restart, requested + [Tokens(buf, 0)[j]], j + 1)
  {
    hide Tokens, Position;
  }

  lemma StartPlaying(p: Player, pattern: Text, restart: bool)
    requires !p.timer && Delays(pattern) != []
    ensures Play(p, pattern, restart, 0) == Playing(p, pattern + [NUL], restart, [Delays(pattern)[0]], 1)
  {
    var buf := pattern + [NUL];
    assert Position(buf, 0) == 0 && Delays(pattern) == Tokens(buf, 0);
    hide Delays, Tokens, Position, Step;
    StepInside(p.(pattern := buf, cursor := 0, restart := restart, started := false), 0);
  }

  lemma EventInOrder(p: Player, buf: Text, restart: bool, requested: seq<int>, i: nat)
    requires Terminated(buf) && i < |Tokens(buf, 0)|
    ensures Event(Playing(p, buf, restart, requested, i))
         == Playing(p, buf, restart, requested + [Tokens(buf, 0)[i]], i + 1)
  {
    hide Event, Requested, Tokens, Position;
    EventInside(Playing(p, buf, restart, requested, i), i);
    PlayingOn(p, buf, restart, requested, i, i);
  }

  /** After `n` timer events, a player has requested the first n + 1 of its delays, in order. */
  lemma {:induction false} PlaysInOrder(p: Player, pattern: Text, restart: bool, n: nat)
    requires !p.timer && n < |Delays(pattern)|
    ensures Play(p, pattern, restart, n) == Playing(p, pattern + [NUL], restart, Delays(pattern)[..n + 1], n + 1)
  {
    hide Start, Event, Playing, Tokens, Position;
    var delays := Delays(pattern);
    if n == 0 {
      StartPlaying(p, pattern, restart);
      assert delays[..1] == [delays[0]];
    } else {
      PlaysInOrder(p, pattern, restart, n - 1);
      EventInOrder(p, pattern + [NUL], restart, delays[..n], n);
      assert delays[..n + 1] == delays[..n] + [delays[n]];
    }
  }

  lemma DelaysBounded(pattern: Text)
    ensures |Delays(pattern)| <= Colons(pattern) + 1
  {
    TokensAndColons(pattern + [NUL], 0);
    ColonsOfTerminated(pattern);
  }

  /** A pattern with no acceptable first delay starts nothing, restart or not. */
  lemma NothingToPlay(p: Player, pattern: Text, restart: bool)
    requires !p.timer && Delays(pattern) == []
    ensures var (p', success) := Start(p, pattern, restart);
            !success && p'.requests == p.requests && p'.toggles == p.toggles && !p'.timer && !p'.started
  {
    StepPastTheEnd(p.(pattern := pattern + [NUL], cursor := 0, restart := restart, started := false));
    hide Step;
  }

  /** A pattern starts if and only if a delay stands at its beginning. */
  lemma StartsIff(p: Player, pattern: Text, restart: bool)
    ensures Start(p, pattern, restart).1 <==> exists delay, next: nat :: DelayAt(pattern + [0], 0, delay, next)
  {
    hide NextInt, DelayAt;
    var buf := pattern + [0];
    var found := NextInt(buf, 0);
    AcceptedIff(buf, 0, found.0, found.1);
    forall delay, next: nat
      ensures DelayAt(buf, 0, delay, next) <==> found == (delay, next) && delay >= 0
    {
      AcceptedIff(buf, 0, delay, next);
    }
  }

  /** "500,200" plays nothing: the comma ends the number and is no separator. */
  lemma CommaPlaysNothing(p: Player, restart: bool)
    ensures !Start(p, [53, 48, 48, 44, 50, 48, 48], restart).1
  {
    hide NextInt, Strtol, DelayAt;
    var buf := [53, 48, 48, 44, 50, 48, 48] + [NUL];
    assert Decimal(5) == [53] && Decimal(50) == [53, 48];
    assert Decimal(500) == [53, 48, 48];
    InvalidCharacter(buf, 0, 500);
  }

  lemma EventEnds(p: Player, buf: Text, requested: seq<int>)
    requires Terminated(buf)
    ensures var p' := Event(Playing(p, buf, false, requested, |Tokens(buf, 0)|));
            && p'.requests == p.requests + requested && p'.toggles == p.toggles + |requested|
            && !p'.started && !p'.timer
  {
    hide Step, Tokens, Position;
    StepPastTheEnd(Playing(p, buf, false, requested, |Tokens(buf, 0)|).(timer := false));
  }

  /** Without restart, a start makes one timer request per accepted delay, in order, and as many timer events
      later the player is idle with no timer in flight: nothing more will happen. */
  lemma PlaysOnceAndIdles(p: Player, pattern: Text)
    requires !p.timer
    ensures var delays := Delays(pattern);
            var p' := Play(p, pattern, false, |delays|);
            && p'.requests == p.requests + delays && p'.toggles == p.toggles + |delays|
            && !p'.started && !p'.timer
            && |delays| <= Colons(pattern) + 1
  {
    hide Start, Event, Playing, Colons, Tokens, Position;
    DelaysBounded(pattern);
    var delays := Delays(pattern);
    if delays == [] {
      NothingToPlay(p, pattern, false);
      assert p.requests + delays == p.requests;
    } else {
      PlaysInOrder(p, pattern, false, |delays| - 1);
      EventEnds(p, pattern + [NUL], delays);
      assert delays[..|delays|] == delays;
    }
  }

  /** The first `n` delays of a pattern repeated for ever. */
  function Cycle(delays: seq<int>, n: nat): (c: seq<int>)
    requires delays != []
    ensures |c| == n && forall k :: 0 <= k < n ==> c[k] == delays[k % |delays|]
  {
    if n == 0 then [] else Cycle(delays, n - 1) + [delays[(n - 1) % |delays|]]
  }

  lemma EventAround(p: Player, buf: Text, requested: seq<int>, i: nat, j: nat)
    requires Terminated(buf) && i < |Tokens(buf, 0)| && j == if i + 1 < |Tokens(buf, 0)| then i + 1 else 0
    ensures Event(Playing(p, buf, true, requested, i + 1))
         == Playing(p, buf, true, requested + [Tokens(buf, 0)[j]], j + 1)
  {
    hide Event, Requested, Tokens, Position;
    NextAround(Playing(p, buf, true, requested, i + 1), i);
    PlayingOn(p, buf, true, requested, i + 1, j);
  }

  /** With restart, the player never stops: after `n` timer events it has made n + 1 requests, the k-th of
      them for delay k modulo the number of accepted delays, and a timer is in flight. */
  lemma {:induction false} PlaysForever(p: Player, pattern: Text, n: nat)
    requires !p.timer && Delays(pattern) != []
    ensures var delays := Delays(pattern);
            Play(p, pattern, true, n) == Playing(p, pattern + [NUL], true, Cycle(delays, n + 1), n % |delays| + 1)
  {
    hide Start, Event, Playing, Tokens, Position;
    var delays := Delays(pattern);
    if n == 0 {
      StartPlaying(p, pattern, true);
      FirstOfCycle(delays);
    } else {
      PlaysForever(p, pattern, n - 1);
      NextIndex(n, |delays|);
      EventAround(p, pattern + [NUL], Cycle(delays, n), (n - 1) % |delays|, n % |delays|);
    }
  }

  lemma FirstOfCycle(delays: seq<int>)
    requires delays != []
    ensures Cycle(delays, 1) == [delays[0]] && 0 % |delays| == 0
  {
    DivMod(0, |delays|, 0, 0);
    assert Cycle(delays, 0) == [];
  }

  lemma EventWraps(p: Player)
    requires Loaded(p) && Tokens(p.pattern, 0) != [] && p.restart
    requires p.cursor == Position(p.pattern, |Tokens(p.pattern, 0)|)
    ensures Event(p) == Requested(p, 0)
  {
    hide Tokens, Position, Step, Requested, Terminated;
    var fired := p.(timer := false);
    StepPastTheEnd(fired);
    var ended := Step(fired).0.(cursor := 0);
    AtTheStart(p.pattern);
    StepInside(ended, 0);
    RequestedAlike(p, ended, 0);
  }

  lemma AtTheStart(pattern: Text)
    requires Terminated(pattern)
    ensures Position(pattern, 0) == 0
  {
  }

  /** A request hides where the player stood and whether it was running. */
  lemma RequestedAlike(p: Player, p': Player, j: nat)
    requires Loaded(p) && j < |Tokens(p.pattern, 0)|
    requires p' == p.(cursor := p'.cursor, started := p'.started, timer := p'.timer) && p'.cursor < |p.pattern|
    ensures Requested(p', j) == Requested(p, j)
  {
    hide Tokens, Position;
  }

  /** The event after delay `i` requests the next one, or the first after the last. */
  lemma NextAround(p: Player, i: nat)
    requires Loaded(p) && i < |Tokens(p.pattern, 0)| && p.restart && p.cursor == Position(p.pattern, i + 1)
    ensures Event(p) == Requested(p, if i + 1 < |Tokens(p.pattern, 0)| then i + 1 else 0)
  {
    hide Tokens, Position, Event, Requested;
    if i + 1 < |Tokens(p.pattern, 0)| {
      EventInside(p, i + 1);
    } else {
      EventWraps(p);
    }
  }

  lemma NextIndex(n: nat, m: nat)
    requires 0 < n && 0 < m
    ensures n % m == if (n - 1) % m + 1 < m then (n - 1) % m + 1 else 0
  {
    var q, r := (n - 1) / m, (n - 1) % m;
    Divided(n - 1, m);
    if r + 1 < m {
      DivMod(n, m, q, r + 1);
    } else {
      assert m * (q + 1) == m * q + m;
      DivMod(n, m, q + 1, 0);
    }
  }

  /** Playing back a printed pattern requests exactly the delays printed, toggles the LED once for each, and
      is idle after as many timer events. */
  lemma PlayBackUndoesPrinting(p: Player, delays: seq<int>)
    requires !p.timer && delays != []
    requires forall i :: 0 <= i < |delays| ==> 0 <= delays[i] <= 0x7fff_ffff
    ensures Delays(Print(delays)) == delays
    ensures var p' := Play(p, Print(delays), false, |delays|);
            && p'.requests == p.requests + delays && p'.toggles == p.toggles + |delays|
            && !p'.started && !p'.timer
  {
    TokensReadPrint(Print(delays) + [NUL], 0, delays);
    PlaysOnceAndIdles(p, Print(delays));
  }

  lemma {:induction false} ColonsOfTerminated(pattern: Text)
    ensures Colons((pattern + [NUL])[0..]) == Colons(pattern)
  {
    var buf := pattern + [NUL];
    assert buf[0..] == buf;
    if pattern == [] {
      assert buf[1..] == [];
    } else {
      ColonsOfTerminated(pattern[1..]);
      assert buf[1..] == pattern[1..] + [NUL];
      assert (pattern[1..] + [NUL])[0..] == pattern[1..] + [NUL];
    }
  }
}

// One iteration of main's `while(1)` loop, and the whole session, as functions of
// the chain and score before them, the rand() values drawn and the keys pressed.

module Rounds {
  import opened Colors
  import opened Chain

  /** How one round ends. */
  datatype RoundResult =
    | Success   // every link reproduced: the score goes up
    | Restart   // a wrong key, then any key but 'q': the game is reset
    | Quit      // a wrong key, then 'q': the program exits
    | Blocked   // the key script ran out: getch would wait for ever

  /** Everything a round produces: keys read, frames drawn, the new chain and score. */
  datatype Step = Step(result: RoundResult, used: nat, frames: seq<int>, chain: seq<int>, score: nat)

  /**
   * One round at `score`: add a link coloured by rand() value `r`, play the
   * chain back, then compare `keys` with links 0..score. Each draw_screen call
   * contributes the value it highlights to the frames.
   */
  function RoundSpec(chain: seq<int>, score: nat, r: nat, keys: seq<int>): (st: Step)
    requires |chain| == MEMCHAIN_LEN && score + 1 < MEMCHAIN_LEN
    ensures |st.chain| == MEMCHAIN_LEN && st.score <= score + 1
    ensures st.used <= |keys|
    ensures var n := SentinelIndex(chain[score := RandomColor(r)]);
      |st.frames| >= 2 * n && st.frames[..2 * n] == Flash(chain[score := RandomColor(r)][..n])
  {
    var grown := chain[score := RandomColor(r)];
    var check := Validate(grown[..score + 1], keys);
    var played := Flash(grown[..SentinelIndex(grown)]);
    // playback, "Do you remember?", then one flash per correct key
    var shown := played + [NO_COLOR] + Flash(grown[..Matched(check, score + 1)]);
    var end := ConcludeSpec(grown, score, check, keys);
    assert (shown + end.frames)[..|played|] == played;
    end.(frames := shown + end.frames)
  }

  /**
   * The end of a round, once the keys were compared with the score + 1 links
   * of `grown`: count the round, or read the key after a wrong one and quit or
   * reset. The frames are those drawn from this point on.
   */
  function ConcludeSpec(grown: seq<int>, score: nat, check: Check, keys: seq<int>): (st: Step)
    requires |grown| == MEMCHAIN_LEN && score + 1 < MEMCHAIN_LEN
    requires check == Validate(grown[..score + 1], keys)
    ensures |st.chain| == MEMCHAIN_LEN && st.score <= score + 1
    ensures st.used <= |keys|
  {
    match check
    case AllMatched =>
      // "Correct! Get ready..."
      Step(Success, score + 1, [NO_COLOR], grown, score + 1)
    case Exhausted(at) =>
      Step(Blocked, at, [], grown, score)
    case Mismatch(at, _) =>
      // "Game over. ..." and then one more key
      if at + 1 >= |keys| then
        Step(Blocked, at + 1, [NO_COLOR], grown, score)
      else if keys[at + 1] == KEY_QUIT then
        Step(Quit, at + 2, [NO_COLOR], grown, score)
      else
        // reset_game draws "Prepare yourself!"
        Step(Restart, at + 2, [NO_COLOR, NO_COLOR], ClearBytes(grown, MEMCHAIN_LEN), 0)
  }

  /** Every round, even one whose reset leaves old links behind, keeps the between-rounds invariant. */
  lemma RoundKeepsPrefix(chain: seq<int>, score: nat, r: nat, keys: seq<int>)
    requires ChainPrefix(chain, score) && score + 1 < MEMCHAIN_LEN
    ensures ChainPrefix(RoundSpec(chain, score, r, keys).chain, RoundSpec(chain, score, r, keys).score)
  {
    var grown := chain[score := RandomColor(r)];
    AddLinkKeepsPrefix(chain, score, RandomColor(r));
    ResetKeepsPrefix(grown, score + 1);
  }

  /**
   * A round succeeds exactly when the keys reproduce all score + 1 links; then
   * the score goes up by one and the chain is the old one plus the new link.
   */
  lemma RoundSuccess(chain: seq<int>, score: nat, r: nat, keys: seq<int>)
    requires |chain| == MEMCHAIN_LEN && score + 1 < MEMCHAIN_LEN
    ensures var grown := chain[score := RandomColor(r)];
      var st := RoundSpec(chain, score, r, keys);
      (st.result == Success <==>
        score + 1 <= |keys| && forall j :: 0 <= j <= score ==> KeyMatches(keys[j], grown[j])) &&
      (st.result == Success ==>
        st.score == score + 1 && st.used == score + 1 && st.chain == grown &&
        forall i :: 0 <= i < |chain| && i != score ==> st.chain[i] == chain[i])
  {
    var grown := chain[score := RandomColor(r)];
    ValidateAllMatched(grown[..score + 1], keys);
  }

  /**
   * A wrong key for link `at` followed by 'q' ends the game with the chain and
   * score as the round left them; no key after the 'q' is read.
   */
  lemma RoundQuit(chain: seq<int>, score: nat, r: nat, keys: seq<int>, at: nat)
    requires |chain| == MEMCHAIN_LEN && score + 1 < MEMCHAIN_LEN
    requires var grown := chain[score := RandomColor(r)];
      at <= score && at + 1 < |keys| &&
      (forall j :: 0 <= j < at ==> KeyMatches(keys[j], grown[j])) &&
      !KeyMatches(keys[at], grown[at]) && keys[at + 1] == KEY_QUIT
    ensures var st := RoundSpec(chain, score, r, keys);
      st.result == Quit && st.used == at + 2 && st.score == score &&
      st.chain == chain[score := RandomColor(r)]
  {
    var grown := chain[score := RandomColor(r)];
    ExplainsUnique(grown[..score + 1], keys, Validate(grown[..score + 1], keys), Mismatch(at, keys[at]));
  }

  /**
   * A wrong key for link `at` followed by any key but 'q' resets the game: the
   * score becomes 0 and the first RESET_ENTRIES slots the sentinel, the rest
   * untouched; for a chain of at most RESET_ENTRIES links that empties it.
   */
  lemma RoundRestart(chain: seq<int>, score: nat, r: nat, keys: seq<int>, at: nat)
    requires |chain| == MEMCHAIN_LEN && score + 1 < MEMCHAIN_LEN
    requires var grown := chain[score := RandomColor(r)];
      at <= score && at + 1 < |keys| &&
      (forall j :: 0 <= j < at ==> KeyMatches(keys[j], grown[j])) &&
      !KeyMatches(keys[at], grown[at]) && keys[at + 1] != KEY_QUIT
    ensures var grown := chain[score := RandomColor(r)];
      var st := RoundSpec(chain, score, r, keys);
      st.result == Restart && st.used == at + 2 && st.score == 0 &&
      (forall i :: 0 <= i < |chain| ==> st.chain[i] == if i < RESET_ENTRIES then NO_COLOR else grown[i]) &&
      (ChainOf(chain, score) && score < RESET_ENTRIES ==> ChainOf(st.chain, 0))
  {
    var grown := chain[score := RandomColor(r)];
    ExplainsUnique(grown[..score + 1], keys, Validate(grown[..score + 1], keys), Mismatch(at, keys[at]));
    if ChainOf(chain, score) && score < RESET_ENTRIES {
      AddLinkExtends(chain, score, RandomColor(r));
      ResetRestoresShortChain(grown, score + 1);
    }
  }

  /**
   * With the corrected reset, clearing sizeof(memchain) bytes instead, every
   * round keeps the chain invariant at any score, with no bound on where the
   * reset happens.
   */
  lemma FixedResetRoundKeepsChain(chain: seq<int>, score: nat, r: nat, keys: seq<int>)
    requires ChainOf(chain, score) && score + 1 < MEMCHAIN_LEN
    ensures var grown := chain[score := RandomColor(r)];
      var st := RoundSpec(chain, score, r, keys);
      var fixed := if st.result == Restart then ClearBytes(grown, MEMCHAIN_BYTES) else st.chain;
      if st.result in {Success, Restart} then ChainOf(fixed, st.score) else ChainOf(fixed, st.score + 1)
  {
    var grown := chain[score := RandomColor(r)];
    AddLinkExtends(chain, score, RandomColor(r));
    FullResetRestoresChain(grown);
  }

  /**
   * From a proper chain, playback shows exactly its score + 1 links in index
   * order, each as a highlight followed by a cleared frame.
   */
  lemma RoundPlaysWholeChain(chain: seq<int>, score: nat, r: nat, keys: seq<int>)
    requires ChainOf(chain, score) && score + 1 < MEMCHAIN_LEN
    ensures var grown := chain[score := RandomColor(r)];
      var st := RoundSpec(chain, score, r, keys);
      SentinelIndex(grown) == score + 1 &&
      |st.frames| >= 2 * (score + 1) &&
      st.frames[..2 * (score + 1)] == Flash(grown[..score + 1])
  {
    AddLinkExtends(chain, score, RandomColor(r));
    SentinelEndsChain(chain[score := RandomColor(r)], score + 1);
  }

  /**
   * A round that succeeds, or restarts from a chain short enough for the
   * reset, leaves a proper chain at the new score; a round that quits or
   * blocks leaves the new link in place without counting it.
   */
  lemma RoundKeepsChain(chain: seq<int>, score: nat, r: nat, keys: seq<int>)
    requires ChainOf(chain, score) && score + 1 < MEMCHAIN_LEN
    requires score < RESET_ENTRIES || RoundSpec(chain, score, r, keys).result != Restart
    ensures var st := RoundSpec(chain, score, r, keys);
      if st.result in {Success, Restart} then ChainOf(st.chain, st.score) else ChainOf(st.chain, st.score + 1)
  {
    var grown := chain[score := RandomColor(r)];
    AddLinkExtends(chain, score, RandomColor(r));
    if RoundSpec(chain, score, r, keys).result == Restart {
      ResetRestoresShortChain(grown, score + 1);
    }
  }

  /**
   * The stale links of a partial reset in an actual round: after a chain of
   * more than RESET_ENTRIES links was reset and RESET_ENTRIES - 1 links were
   * rebuilt, the next round adds link RESET_ENTRIES - 1 but playback goes on to
   * show old link RESET_ENTRIES as well, while the round is won on the first
   * RESET_ENTRIES keys alone.
   */
  lemma StaleRoundShowsOldLink(before: seq<int>, n: int, chain: seq<int>, r: nat, keys: seq<int>)
    requires ChainOf(before, n) && n > RESET_ENTRIES
    requires ChainPrefix(chain, RESET_ENTRIES - 1)
    requires forall i :: RESET_ENTRIES - 1 <= i < |chain| ==> chain[i] == ClearBytes(before, MEMCHAIN_LEN)[i]
    ensures var grown := chain[RESET_ENTRIES - 1 := RandomColor(r)];
      var st := RoundSpec(chain, RESET_ENTRIES - 1, r, keys);
      SentinelIndex(grown) > RESET_ENTRIES &&
      st.frames[2 * RESET_ENTRIES] == before[RESET_ENTRIES] && IsColor(st.frames[2 * RESET_ENTRIES]) &&
      (st.result == Success <==>
        RESET_ENTRIES <= |keys| && forall j :: 0 <= j < RESET_ENTRIES ==> KeyMatches(keys[j], grown[j]))
  {
    var score := RESET_ENTRIES - 1;
    var grown := chain[score := RandomColor(r)];
    StalePlaybackShowsOldLinks(before, n, grown);
    var k := SentinelIndex(grown);
    FlashAt(grown[..k], RESET_ENTRIES);
    RoundSuccess(chain, score, r, keys);
  }

  /** How a session ends. */
  datatype Ending =
    | Quitted      // 'q' after a wrong key
    | Waiting      // the key script ran out
    | Unfinished   // the injected rand() values ran out with the game still going
    | Overrun      // a round would start at score MEMCHAIN_LEN - 1: playback would read past the array

  datatype Session = Session(ending: Ending, frames: seq<int>, chain: seq<int>, score: nat)

  function Prepend(frames: seq<int>, s: Session): Session {
    s.(frames := frames + s.frames)
  }

  /**
   * The `while(1)` loop of main: one round per rand() value until a round quits
   * or blocks, or until the score leaves no room in the array for the next round.
   */
  function RunSpec(chain: seq<int>, score: nat, rands: seq<nat>, keys: seq<int>): (s: Session)
    requires |chain| == MEMCHAIN_LEN && score < MEMCHAIN_LEN
    ensures |s.chain| == MEMCHAIN_LEN && s.score < MEMCHAIN_LEN
    ensures s.score <= score + |rands|
    ensures s.ending == Overrun ==> s.score == MEMCHAIN_LEN - 1
    decreases |rands|
  {
    if rands == [] then Session(Unfinished, [], chain, score)
    else if score + 1 >= MEMCHAIN_LEN then Session(Overrun, [], chain, score)
    else
      var st := RoundSpec(chain, score, rands[0], keys);
      match st.result
      case Quit => Session(Quitted, st.frames, st.chain, st.score)
      case Blocked => Session(Waiting, st.frames, st.chain, st.score)
      case _ => Prepend(st.frames, RunSpec(st.chain, st.score, rands[1..], keys[st.used..]))
  }

  /** Round `k` of a run, given its step `st`, and the run from round k + 1 on. */
  lemma RunStep(chain: seq<int>, score: nat, rands: seq<nat>, k: nat, keys: seq<int>, st: Step)
    requires k < |rands| && ChainPrefix(chain, score) && score + 1 < MEMCHAIN_LEN
    requires st == RoundSpec(chain, score, rands[k], keys)
    ensures ChainPrefix(st.chain, st.score) && st.used <= |keys|
    ensures st.result == Quit ==> RunSpec(chain, score, rands[k..], keys) == Session(Quitted, st.frames, st.chain, st.score)
    ensures st.result == Blocked ==> RunSpec(chain, score, rands[k..], keys) == Session(Waiting, st.frames, st.chain, st.score)
    ensures st.result in {Success, Restart} ==>
      RunSpec(chain, score, rands[k..], keys) == Prepend(st.frames, RunSpec(st.chain, st.score, rands[k + 1..], keys[st.used..]))
  {
    assert rands[k..][0] == rands[k] && rands[k..][1..] == rands[k + 1..];
    RoundKeepsPrefix(chain, score, rands[k], keys);
  }

  lemma PrependTwice(a: seq<int>, b: seq<int>, s: Session)
    ensures Prepend(a, Prepend(b, s)) == Prepend(a + b, s)
  {
    assert a + (b + s.frames) == (a + b) + s.frames;
  }

  /**
   * main from its start: "Press any key to start.", one key, "Prepare
   * yourself!", then the rounds, on a chain of MEMCHAIN_LEN entries at score 0.
   */
  function SessionSpec(chain: seq<int>, rands: seq<nat>, keys: seq<int>): (s: Session)
    requires |chain| == MEMCHAIN_LEN
    ensures |s.chain| == MEMCHAIN_LEN && s.score < MEMCHAIN_LEN && s.score <= |rands|
  {
    if keys == [] then Session(Waiting, [NO_COLOR], chain, 0)
    else Prepend([NO_COLOR, NO_COLOR], RunSpec(chain, 0, rands, keys[1..]))
  }

  /** However many rounds are played, the between-rounds invariant holds at the end. */
  lemma {:induction false} RunKeepsPrefix(chain: seq<int>, score: nat, rands: seq<nat>, keys: seq<int>)
    requires ChainPrefix(chain, score)
    ensures ChainPrefix(RunSpec(chain, score, rands, keys).chain, RunSpec(chain, score, rands, keys).score)
    decreases |rands|
  {
    if rands != [] && score + 1 < MEMCHAIN_LEN {
      var st := RoundSpec(chain, score, rands[0], keys);
      RunStep(chain, score, rands, 0, keys, st);
      assert rands[0..] == rands;
      if st.result in {Success, Restart} {
        RunKeepsPrefix(st.chain, st.score, rands[1..], keys[st.used..]);
      }
    }
  }

  /**
   * A run stops as Overrun only with every slot but the last holding a link,
   * so the next add_mem_link would fill the last sentinel and simon_says would
   * find no sentinel inside the array.
   */
  lemma RunOverrunFillsArray(chain: seq<int>, score: nat, rands: seq<nat>, keys: seq<int>, r: nat)
    requires ChainPrefix(chain, score)
    ensures var s := RunSpec(chain, score, rands, keys);
      s.ending == Overrun ==> SentinelIndex(s.chain[s.score := RandomColor(r)]) == MEMCHAIN_LEN
  {
    var s := RunSpec(chain, score, rands, keys);
    RunKeepsPrefix(chain, score, rands, keys);
    if s.ending == Overrun {
      var full := s.chain[s.score := RandomColor(r)];
      assert forall i :: 0 <= i < |full| ==> full[i] != NO_COLOR;
    }
  }

  /**
   * While fewer rounds remain than the reset clears entries, every reset meets
   * a short enough chain, so the chain invariant holds throughout.
   */
  lemma {:induction false} RunKeepsChain(chain: seq<int>, score: nat, rands: seq<nat>, keys: seq<int>)
    requires ChainOf(chain, score) && score + |rands| <= RESET_ENTRIES
    ensures var s := RunSpec(chain, score, rands, keys);
      s.ending != Overrun &&
      if s.ending == Unfinished then ChainOf(s.chain, s.score) else ChainOf(s.chain, s.score + 1)
    decreases |rands|
  {
    if rands != [] {
      var st := RoundSpec(chain, score, rands[0], keys);
      ChainOfIsPrefix(chain, score);
      RunStep(chain, score, rands, 0, keys, st);
      assert rands[0..] == rands;
      RoundKeepsChain(chain, score, rands[0], keys);
      if st.result in {Success, Restart} {
        RunKeepsChain(st.chain, st.score, rands[1..], keys[st.used..]);
      }
    }
  }

  /**
   * Along the run, no round resets the game from a chain of more than
   * RESET_ENTRIES links, so every reset as written empties the chain.
   */
  predicate ResetsStayShort(chain: seq<int>, score: nat, rands: seq<nat>, keys: seq<int>)
    requires |chain| == MEMCHAIN_LEN && score < MEMCHAIN_LEN
    decreases |rands|
  {
    rands == [] || score + 1 >= MEMCHAIN_LEN ||
    var st := RoundSpec(chain, score, rands[0], keys);
    (st.result == Restart ==> score < RESET_ENTRIES) &&
    (st.result in {Success, Restart} ==> ResetsStayShort(st.chain, st.score, rands[1..], keys[st.used..]))
  }

  /**
   * However many rounds are played, the chain invariant holds as long as every
   * reset happens below score RESET_ENTRIES, the bound of the reset as written.
   */
  lemma {:induction false} RunKeepsChainWhileResetsShort(chain: seq<int>, score: nat, rands: seq<nat>, keys: seq<int>)
    requires ChainOf(chain, score) && score < MEMCHAIN_LEN
    requires ResetsStayShort(chain, score, rands, keys)
    ensures var s := RunSpec(chain, score, rands, keys);
      if s.ending in {Unfinished, Overrun} then ChainOf(s.chain, s.score) else ChainOf(s.chain, s.score + 1)
    decreases |rands|
  {
    if rands != [] && score + 1 < MEMCHAIN_LEN {
      var st := RoundSpec(chain, score, rands[0], keys);
      ChainOfIsPrefix(chain, score);
      RunStep(chain, score, rands, 0, keys, st);
      assert rands[0..] == rands;
      RoundKeepsChain(chain, score, rands[0], keys);
      if st.result in {Success, Restart} {
        RunKeepsChainWhileResetsShort(st.chain, st.score, rands[1..], keys[st.used..]);
      }
    }
  }

  /** A session of at most RESET_ENTRIES rounds from an empty chain keeps the chain invariant. */
  lemma ShortSessionKeepsChain(chain: seq<int>, rands: seq<nat>, keys: seq<int>)
    requires ChainOf(chain, 0) && |rands| <= RESET_ENTRIES
    ensures var s := SessionSpec(chain, rands, keys);
      s.ending != Overrun &&
      if s.ending == Unfinished || keys == [] then ChainOf(s.chain, s.score) else ChainOf(s.chain, s.score + 1)
  {
    if keys != [] {
      RunKeepsChain(chain, 0, rands, keys[1..]);
    }
  }

  /** A whole session from an empty chain, however long, keeps the between-rounds invariant. */
  lemma SessionKeepsPrefix(chain: seq<int>, rands: seq<nat>, keys: seq<int>)
    requires ChainOf(chain, 0)
    ensures ChainPrefix(SessionSpec(chain, rands, keys).chain, SessionSpec(chain, rands, keys).score)
  {
    ChainOfIsPrefix(chain, 0);
    if keys != [] {
      RunKeepsPrefix(chain, 0, rands, keys[1..]);
    }
  }
}

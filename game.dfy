// The game state of nsimon's main: the `memchain` array and the score, and the
// functions of nsimon.c that update them in place.

module Game {
  import opened Colors
  import opened Chain
  import opened Rounds

  class SimonGame {
    /** `int memchain[MEMCHAIN_LEN]`: link i of the chain, or the sentinel 0. */
    const memchain: array<int>
    var score: nat

    /** `int memchain[MEMCHAIN_LEN] = {0}; int score = 0;` */
    constructor ()
      ensures ChainOf(memchain[..], 0) && score == 0
      ensures fresh(memchain)
    {
      memchain := new int[MEMCHAIN_LEN](_ => NO_COLOR);
      score := 0;
    }

    /**
     * add_mem_link: store the colour for rand() value `r` at index `score`.
     * The source does not check the index against MEMCHAIN_LEN.
     */
    method AddMemLink(r: nat)
      requires 0 <= score < memchain.Length
      modifies memchain
      ensures memchain[..] == old(memchain[..])[score := RandomColor(r)]
    {
      memchain[score] := RandomColor(r);
    }

    /**
     * simon_says: walk the chain up to the first sentinel, drawing each link
     * highlighted and then a board with nothing highlighted. The source does
     * not check the index either, so a sentinel must lie inside the array.
     */
    method SimonSays() returns (frames: seq<int>, n: nat)
      requires SentinelIndex(memchain[..]) < memchain.Length
      ensures n == SentinelIndex(memchain[..])
      ensures frames == Flash(memchain[..n])
    {
      frames, n := [], 0;
      while memchain[n] != NO_COLOR
        invariant n <= SentinelIndex(memchain[..])
        invariant frames == Flash(memchain[..n])
        decreases SentinelIndex(memchain[..]) - n
      {
        assert memchain[..n + 1][..n] == memchain[..n];
        frames := frames + [memchain[n], NO_COLOR];
        n := n + 1;
      }
    }

    /**
     * The `for` loop of main: for i = 0..score read one key, stop at the first
     * key whose `key - '0'` differs from link i, and flash each correct one.
     */
    method CheckKeys(keys: seq<int>) returns (check: Check, frames: seq<int>)
      requires 0 <= score < memchain.Length
      ensures Explains(memchain[..score + 1], keys, check)
      ensures frames == Flash(memchain[..Matched(check, score + 1)])
    {
      ghost var links := memchain[..score + 1];
      check, frames := AllMatched, [];
      var i := 0;
      while i <= score
        invariant 0 <= i <= score + 1
        invariant MatchesUpTo(links, keys, i)
        invariant frames == Flash(memchain[..i])
      {
        if i >= |keys| {
          check := Exhausted(i);
          return;
        }
        var keyp := KeyValue(keys[i]);
        if keyp != memchain[i] {
          check := Mismatch(i, keys[i]);
          return;
        }
        assert memchain[..i + 1][..i] == memchain[..i];
        frames := frames + [keyp, NO_COLOR];
        i := i + 1;
      }
    }

    /** reset_game: `memset(memchain, 0, MEMCHAIN_LEN)` clears bytes, then the score becomes 0. */
    method ResetGame()
      requires memchain.Length == MEMCHAIN_LEN
      modifies memchain, this`score
      ensures memchain[..] == ClearBytes(old(memchain[..]), MEMCHAIN_LEN)
      ensures score == 0
    {
      forall i | 0 <= i < MEMCHAIN_LEN / INT_SIZE {
        memchain[i] := NO_COLOR;
      }
      score := 0;
    }

    /** reset_game clearing `sizeof(memchain)` bytes: the whole chain becomes empty. */
    method ResetGameFixed()
      requires memchain.Length == MEMCHAIN_LEN
      modifies memchain, this`score
      ensures memchain[..] == ClearBytes(old(memchain[..]), MEMCHAIN_BYTES)
      ensures ChainOf(memchain[..], 0) && score == 0
    {
      FullResetRestoresChain(memchain[..]);
      // memset(memchain, 0, sizeof(memchain)): sizeof(memchain) / sizeof(int) entries
      forall i | 0 <= i < MEMCHAIN_BYTES / INT_SIZE {
        memchain[i] := NO_COLOR;
      }
      score := 0;
    }

    /** One iteration of main's `while(1)` loop, with rand() value `r` and the keys still to come. */
    method Round(r: nat, keys: seq<int>) returns (result: RoundResult, used: nat, frames: seq<int>)
      requires ChainPrefix(memchain[..], score) && score + 1 < MEMCHAIN_LEN
      modifies memchain, this`score
      ensures Step(result, used, frames, memchain[..], score) == RoundSpec(old(memchain[..]), old(score), r, keys)
      ensures ChainPrefix(memchain[..], score)
    {
      RoundKeepsPrefix(memchain[..], score, r, keys);
      AddLinkKeepsPrefix(memchain[..], score, RandomColor(r));
      AddMemLink(r);
      SentinelAfterPrefix(memchain[..], score + 1);
      var shown, n := SimonSays();
      frames := shown + [NO_COLOR];  // "Do you remember?"
      var check, feedback := CheckKeys(keys);
      ExplainsUnique(memchain[..score + 1], keys, check, Validate(memchain[..score + 1], keys));
      frames := frames + feedback;
      var tail;
      result, used, tail := Conclude(check, keys);
      frames := frames + tail;
    }

    /**
     * The rest of the loop body once the keys were compared: the `if(!reset)`
     * success branch, or the key after a wrong one, which quits or resets.
     */
    method Conclude(check: Check, keys: seq<int>) returns (result: RoundResult, used: nat, frames: seq<int>)
      requires memchain.Length == MEMCHAIN_LEN && score + 1 < MEMCHAIN_LEN
      requires check == Validate(memchain[..score + 1], keys)
      modifies memchain, this`score
      ensures Step(result, used, frames, memchain[..], score) == ConcludeSpec(old(memchain[..]), old(score), check, keys)
    {
      match check {
        case AllMatched =>
          frames := [NO_COLOR];  // "Correct! Get ready..."
          used := score + 1;
          score := score + 1;
          result := Success;
        case Exhausted(at) =>
          frames, used, result := [], at, Blocked;
        case Mismatch(at, _) =>
          frames := [NO_COLOR];  // "Game over. ..."
          if at + 1 >= |keys| {
            used, result := at + 1, Blocked;
          } else if keys[at + 1] == KEY_QUIT {
            used, result := at + 2, Quit;
          } else {
            used := at + 2;
            ResetGame();
            frames := frames + [NO_COLOR];  // "Prepare yourself!"
            result := Restart;
          }
      }
    }

    /**
     * The `while(1)` loop of main: one round per injected rand() value, until
     * a round quits or blocks, or the next round would run off the array.
     */
    method RunRounds(rands: seq<nat>, keys: seq<int>) returns (ending: Ending, frames: seq<int>)
      requires ChainPrefix(memchain[..], score)
      modifies memchain, this`score
      ensures Session(ending, frames, memchain[..], score) == RunSpec(old(memchain[..]), old(score), rands, keys)
      ensures ChainPrefix(memchain[..], score)
    {
      ghost var start, initial := memchain[..], score;
      ghost var cur := start;
      frames := [];
      var rest := keys;
      var k := 0;
      assert rands[k..] == rands;
      while k < |rands| && score + 1 < MEMCHAIN_LEN
        invariant 0 <= k <= |rands| && cur == memchain[..]
        invariant ChainPrefix(cur, score)
        invariant RunSpec(start, initial, rands, keys) == Prepend(frames, RunSpec(cur, score, rands[k..], rest))
      {
        ghost var previous, done := score, frames;
        var result, used, shown := Round(rands[k], rest);
        ghost var st := Step(result, used, shown, memchain[..], score);
        RunStep(cur, previous, rands, k, rest, st);
        cur := st.chain;
        frames := frames + shown;
        if result == Quit || result == Blocked {
          ending := if result == Quit then Quitted else Waiting;
          return;
        }
        rest := rest[used..];
        k := k + 1;
        PrependTwice(done, shown, RunSpec(cur, score, rands[k..], rest));
      }
      assert frames + [] == frames;
      ending := if k < |rands| then Overrun else Unfinished;
    }

    /**
     * main: the start prompt and its key, then the rounds, until 'q', until the
     * key script runs out, until the injected rand() values are used up, or
     * until the score leaves no room in the array for another round.
     */
    method Play(rands: seq<nat>, keys: seq<int>) returns (ending: Ending, frames: seq<int>)
      requires ChainOf(memchain[..], 0) && score == 0
      modifies memchain, this`score
      ensures Session(ending, frames, memchain[..], score) == SessionSpec(old(memchain[..]), rands, keys)
      ensures ChainPrefix(memchain[..], score)
    {
      ChainOfIsPrefix(memchain[..], 0);
      if |keys| == 0 {
        ending, frames := Waiting, [NO_COLOR];  // "Press any key to start."
        return;
      }
      var played;
      ending, played := RunRounds(rands, keys[1..]);
      frames := [NO_COLOR, NO_COLOR] + played;  // the prompt, then "Prepare yourself!"
    }
  }
}

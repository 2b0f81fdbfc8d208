// The memory chain as a value: the contents of the fixed `int memchain[MEMCHAIN_LEN]`
// array, the operations main performs on it, and what they guarantee.

module Chain {
  import opened Colors

  const MEMCHAIN_LEN: int := 1024

  /** sizeof(int) on the platforms the game is built for. */
  const INT_SIZE: int := 4

  /** `sizeof(memchain)`: the size of the whole array in bytes. */
  const MEMCHAIN_BYTES: int := MEMCHAIN_LEN * INT_SIZE

  /** Entries cleared by `memset(memchain, 0, MEMCHAIN_LEN)`, which counts bytes. */
  const RESET_ENTRIES: int := MEMCHAIN_LEN / INT_SIZE

  /**
   * The chain invariant: the array holds exactly `n` links, colours in the
   * first `n` slots and the sentinel in every slot after them.
   */
  predicate ChainOf(s: seq<int>, n: int) {
    |s| == MEMCHAIN_LEN && 0 <= n <= |s| &&
    (forall i :: 0 <= i < n ==> IsColor(s[i])) &&
    (forall i :: n <= i < |s| ==> s[i] == NO_COLOR)
  }

  /**
   * What always holds between rounds, even after a reset that left old links
   * behind: `n` links in front, every slot a colour or the sentinel, and the
   * last slot still the sentinel.
   */
  predicate ChainPrefix(s: seq<int>, n: int) {
    |s| == MEMCHAIN_LEN && 0 <= n < |s| &&
    (forall i :: 0 <= i < n ==> IsColor(s[i])) &&
    (forall i :: 0 <= i < |s| ==> s[i] == NO_COLOR || IsColor(s[i])) &&
    s[|s| - 1] == NO_COLOR
  }

  lemma ChainOfIsPrefix(s: seq<int>, n: int)
    requires ChainOf(s, n) && n < MEMCHAIN_LEN
    ensures ChainPrefix(s, n)
  {
  }

  /** add_mem_link at index `n` turns a chain of `n` links into one of `n + 1`. */
  lemma AddLinkExtends(s: seq<int>, n: int, c: int)
    requires ChainOf(s, n) && n < |s| && IsColor(c)
    ensures ChainOf(s[n := c], n + 1)
    ensures forall i :: 0 <= i < |s| && i != n ==> s[n := c][i] == s[i]
  {
  }

  lemma AddLinkKeepsPrefix(s: seq<int>, n: int, c: int)
    requires ChainPrefix(s, n) && n + 1 < |s| && IsColor(c)
    ensures ChainPrefix(s[n := c], n + 1)
  {
  }

  /**
   * Entry `i` of an int array occupies bytes i * INT_SIZE up to (i + 1) * INT_SIZE - 1;
   * it is covered by a write of the first `nbytes` bytes when all of them lie inside it.
   */
  predicate EntryCovered(i: int, nbytes: int) {
    (i + 1) * INT_SIZE <= nbytes
  }

  /** The entries whose bytes all fall in the first `nbytes` bytes are exactly those below nbytes / INT_SIZE. */
  lemma CoveredEntries(nbytes: nat)
    ensures forall i :: 0 <= i ==> (EntryCovered(i, nbytes) <==> i < nbytes / INT_SIZE)
  {
    var q, m := nbytes / INT_SIZE, nbytes % INT_SIZE;
    assert nbytes == INT_SIZE * q + m && 0 <= m < INT_SIZE;
    forall i | 0 <= i ensures EntryCovered(i, nbytes) <==> i < q {
      assert (i + 1) * INT_SIZE == INT_SIZE * i + INT_SIZE;
      if i < q {
        assert INT_SIZE * i + INT_SIZE <= INT_SIZE * q;
      } else {
        assert INT_SIZE * i >= INT_SIZE * q;
      }
    }
  }

  /**
   * `memset(s, 0, nbytes)` on an int array: every entry all of whose bytes are
   * zeroed becomes 0. The write must stay inside the array, and it covers whole
   * entries only (what becomes of a partly zeroed int depends on byte order).
   */
  function ClearBytes(s: seq<int>, nbytes: nat): (r: seq<int>)
    requires nbytes <= |s| * INT_SIZE && nbytes % INT_SIZE == 0
    ensures |r| == |s|
    ensures forall i :: 0 <= i < |s| ==> r[i] == if i < nbytes / INT_SIZE then NO_COLOR else s[i]
  {
    CoveredEntries(nbytes);
    seq(|s|, i requires 0 <= i < |s| => if EntryCovered(i, nbytes) then NO_COLOR else s[i])
  }

  /** The reset as written empties a chain of at most RESET_ENTRIES links. */
  lemma ResetRestoresShortChain(s: seq<int>, n: int)
    requires ChainOf(s, n) && n <= RESET_ENTRIES
    ensures ChainOf(ClearBytes(s, MEMCHAIN_LEN), 0)
  {
    var r := ClearBytes(s, MEMCHAIN_LEN);
    forall i | 0 <= i < |r| ensures r[i] == NO_COLOR {
      if i >= RESET_ENTRIES {
        assert r[i] == s[i];
      }
    }
  }

  /**
   * The reset as written keeps every link from RESET_ENTRIES on, so a longer
   * chain is not emptied.
   */
  lemma ResetLeavesStaleLinks(s: seq<int>, n: int)
    requires ChainOf(s, n) && n > RESET_ENTRIES
    ensures forall i :: RESET_ENTRIES <= i < n ==> IsColor(ClearBytes(s, MEMCHAIN_LEN)[i])
    ensures !ChainOf(ClearBytes(s, MEMCHAIN_LEN), 0)
  {
    var r := ClearBytes(s, MEMCHAIN_LEN);
    assert r[RESET_ENTRIES] == s[RESET_ENTRIES] && IsColor(r[RESET_ENTRIES]);
  }

  /**
   * The stale links resurface: once the player has rebuilt RESET_ENTRIES links
   * over a partially reset chain, playback runs on into the old links and
   * shows more links than the RESET_ENTRIES keys the round then asks for.
   */
  lemma StalePlaybackShowsOldLinks(s: seq<int>, n: int, rebuilt: seq<int>)
    requires ChainOf(s, n) && n > RESET_ENTRIES
    requires |rebuilt| == |s|
    requires forall i :: 0 <= i < RESET_ENTRIES ==> IsColor(rebuilt[i])
    requires forall i :: RESET_ENTRIES <= i < |s| ==> rebuilt[i] == ClearBytes(s, MEMCHAIN_LEN)[i]
    ensures SentinelIndex(rebuilt) > RESET_ENTRIES
  {
    ResetLeavesStaleLinks(s, n);
    assert rebuilt[RESET_ENTRIES] != NO_COLOR;
    assert forall i :: 0 <= i < RESET_ENTRIES ==> rebuilt[i] != NO_COLOR;
  }

  /** Even a partial reset keeps the weaker between-rounds invariant. */
  lemma ResetKeepsPrefix(s: seq<int>, n: int)
    requires ChainPrefix(s, n)
    ensures ChainPrefix(ClearBytes(s, MEMCHAIN_LEN), 0)
  {
    var r := ClearBytes(s, MEMCHAIN_LEN);
    assert r[|r| - 1] == s[|s| - 1];
  }

  /** Clearing the whole array, `sizeof(memchain)` bytes, empties every chain. */
  lemma FullResetRestoresChain(s: seq<int>)
    requires |s| == MEMCHAIN_LEN
    ensures ChainOf(ClearBytes(s, MEMCHAIN_BYTES), 0)
  {
  }

  /** Index of the first sentinel, where simon_says stops (`|s|` when there is none). */
  function SentinelIndex(s: seq<int>): (k: nat)
    ensures k <= |s|
    ensures forall i :: 0 <= i < k ==> s[i] != NO_COLOR
    ensures k < |s| ==> s[k] == NO_COLOR
  {
    if s == [] || s[0] == NO_COLOR then 0 else 1 + SentinelIndex(s[1..])
  }

  /** Playback after add_mem_link walks exactly the `n` links of the chain. */
  lemma SentinelEndsChain(s: seq<int>, n: int)
    requires ChainOf(s, n) && n < |s|
    ensures SentinelIndex(s) == n
  {
    assert s[n] == NO_COLOR;
    assert forall i :: 0 <= i < n ==> s[i] != NO_COLOR;
  }

  /** With links left over from a partial reset, playback can run past the chain. */
  lemma SentinelAfterPrefix(s: seq<int>, n: int)
    requires ChainPrefix(s, n)
    ensures n <= SentinelIndex(s) < |s|
  {
  }

  /**
   * The frames one highlight-then-clear pass over `links` draws: each link's
   * colour followed by a frame with nothing highlighted.
   */
  function Flash(links: seq<int>): (f: seq<int>)
    ensures |f| == 2 * |links|
  {
    if links == [] then [] else Flash(links[..|links| - 1]) + [links[|links| - 1], NO_COLOR]
  }

  lemma {:induction false} FlashAt(links: seq<int>, k: int)
    requires 0 <= k < |links|
    ensures Flash(links)[2 * k] == links[k]
    ensures Flash(links)[2 * k + 1] == NO_COLOR
  {
    var m := |links| - 1;
    if k < m {
      FlashAt(links[..m], k);
      assert links[..m][k] == links[k];
    }
  }

  /**
   * A flash over real colours highlights on the even frames and clears on the
   * odd ones, so no two highlights are ever adjacent, even for repeated colours.
   */
  lemma FlashAlternates(links: seq<int>)
    requires forall i :: 0 <= i < |links| ==> IsColor(links[i])
    ensures forall k :: 0 <= k < |Flash(links)| ==> (Flash(links)[k] != NO_COLOR <==> k % 2 == 0)
    ensures forall k :: 0 <= k < |Flash(links)| - 1 ==> Flash(links)[k] == NO_COLOR || Flash(links)[k + 1] == NO_COLOR
  {
    var f := Flash(links);
    forall k | 0 <= k < |f| ensures f[k] != NO_COLOR <==> k % 2 == 0 {
      FlashAt(links, k / 2);
    }
  }

  /** The result of reading keys against the links of a round. */
  datatype Check =
    | AllMatched                      // every link was reproduced
    | Mismatch(at: nat, got: int)     // key `got` read for link `at` was wrong
    | Exhausted(at: nat)              // the script ends before link `at`: getch would block

  /** How many links were reproduced before the round stopped. */
  function Matched(c: Check, total: nat): nat {
    match c
    case AllMatched => total
    case Mismatch(at, _) => at
    case Exhausted(at) => at
  }

  /** How many keys the comparison read. */
  function KeysRead(c: Check, total: nat): nat {
    match c
    case AllMatched => total
    case Mismatch(at, _) => at + 1
    case Exhausted(at) => at
  }

  /**
   * `c` describes the index-by-index early-exit comparison of `keys` against
   * `links`: every key before the stopping point matched its link, and the
   * comparison stops at the first wrong key or when the keys run out.
   */
  predicate Explains(links: seq<int>, keys: seq<int>, c: Check) {
    match c
    case AllMatched => MatchesUpTo(links, keys, |links|)
    case Mismatch(at, got) =>
      at < |links| && at < |keys| && got == keys[at] && !KeyMatches(got, links[at]) && MatchesUpTo(links, keys, at)
    case Exhausted(at) => at < |links| && at == |keys| && MatchesUpTo(links, keys, at)
  }

  /** The first `n` keys reproduce the first `n` links. */
  predicate MatchesUpTo(links: seq<int>, keys: seq<int>, n: nat)
    requires n <= |links|
  {
    n <= |keys| && forall j :: 0 <= j < n ==> KeyMatches(keys[j], links[j])
  }

  /** The chain is compared only up to the first mismatch: the outcome is unique. */
  lemma ExplainsUnique(links: seq<int>, keys: seq<int>, c1: Check, c2: Check)
    requires Explains(links, keys, c1) && Explains(links, keys, c2)
    ensures c1 == c2
  {
    var m1, m2 := Matched(c1, |links|), Matched(c2, |links|);
    assert forall j :: 0 <= j < m1 ==> KeyMatches(keys[j], links[j]);
    assert forall j :: 0 <= j < m2 ==> KeyMatches(keys[j], links[j]);
  }

  function ValidateFrom(links: seq<int>, keys: seq<int>, i: nat): (c: Check)
    requires i <= |links|
    requires MatchesUpTo(links, keys, i)
    ensures Explains(links, keys, c)
    ensures i <= Matched(c, |links|)
    decreases |links| - i
  {
    if i == |links| then AllMatched
    else if i >= |keys| then Exhausted(i)
    else if !KeyMatches(keys[i], links[i]) then Mismatch(i, keys[i])
    else ValidateFrom(links, keys, i + 1)
  }

  /** The comparison the round loop of main performs. */
  function Validate(links: seq<int>, keys: seq<int>): (c: Check)
    ensures Explains(links, keys, c)
    ensures KeysRead(c, |links|) <= |keys|
    ensures KeysRead(c, |links|) <= |links|
  {
    ValidateFrom(links, keys, 0)
  }

  /** A round is won exactly when every link is reproduced by the keys read for it. */
  lemma ValidateAllMatched(links: seq<int>, keys: seq<int>)
    ensures Validate(links, keys) == AllMatched <==>
      |links| <= |keys| && forall j :: 0 <= j < |links| ==> KeyMatches(keys[j], links[j])
  {
    if |links| <= |keys| && forall j :: 0 <= j < |links| ==> KeyMatches(keys[j], links[j]) {
      ExplainsUnique(links, keys, Validate(links, keys), AllMatched);
    }
  }

  /**
   * Against real colours, only digit keys '1'..'4' are ever accepted: a key
   * '0' or any other key at a position stops the comparison there.
   */
  lemma ValidateRejectsNonColorKeys(links: seq<int>, keys: seq<int>, i: nat)
    requires forall j :: 0 <= j < |links| ==> IsColor(links[j])
    requires i < |links| && i < |keys|
    requires forall j :: 0 <= j < i ==> KeyMatches(keys[j], links[j])
    requires !('1' as int <= keys[i] <= '4' as int)
    ensures Validate(links, keys) == Mismatch(i, keys[i])
  {
    OnlyColorKeysMatch(keys[i], links[i]);
    ExplainsUnique(links, keys, Validate(links, keys), Mismatch(i, keys[i]));
  }
}

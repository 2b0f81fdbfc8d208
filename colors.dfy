// Colours of the Simon board and the key arithmetic that maps a keypress to one.

module Colors {

  /** Number of quadrants, hence of colours (NUM_COLORS). */
  const NUM_COLORS: int := 4

  /** The sentinel "no colour": an unfilled chain slot, or a frame with nothing highlighted. */
  const NO_COLOR: int := 0

  /** Key codes as getch returns them. */
  const KEY_ZERO: int := '0' as int
  const KEY_QUIT: int := 'q' as int

  predicate IsColor(c: int) {
    1 <= c <= NUM_COLORS
  }

  /**
   * get_random_color: the value drawn from rand(), which is never negative,
   * is injected as `r`. C's `%` agrees with Dafny's on a non-negative left operand.
   */
  function RandomColor(r: nat): (c: int)
    ensures IsColor(c) && c != NO_COLOR
    ensures (r - (c - 1)) % NUM_COLORS == 0
  {
    r % NUM_COLORS + 1
  }

  /** Every colour is produced, by the rand() value one below it. */
  lemma RandomColorOnto(c: int)
    requires IsColor(c)
    ensures RandomColor(c - 1) == c
  {
  }

  /**
   * Any four consecutive rand() values yield the four colours, each once:
   * every colour is equally likely when rand() is uniform modulo 4.
   */
  lemma RandomColorUniform(r: nat)
    ensures {RandomColor(r), RandomColor(r + 1), RandomColor(r + 2), RandomColor(r + 3)} == {1, 2, 3, 4}
    ensures RandomColor(r + NUM_COLORS) == RandomColor(r)
  {
    var q, m := r / NUM_COLORS, r % NUM_COLORS;
    assert r == NUM_COLORS * q + m && 0 <= m < NUM_COLORS;
    assert r + NUM_COLORS == NUM_COLORS * (q + 1) + m;
    if m == 0 {
      assert r + 1 == NUM_COLORS * q + 1 && r + 2 == NUM_COLORS * q + 2 && r + 3 == NUM_COLORS * q + 3;
    } else if m == 1 {
      assert r + 1 == NUM_COLORS * q + 2 && r + 2 == NUM_COLORS * q + 3 && r + 3 == NUM_COLORS * (q + 1);
    } else if m == 2 {
      assert r + 1 == NUM_COLORS * q + 3 && r + 2 == NUM_COLORS * (q + 1) && r + 3 == NUM_COLORS * (q + 1) + 1;
    } else {
      assert r + 1 == NUM_COLORS * (q + 1) && r + 2 == NUM_COLORS * (q + 1) + 1 && r + 3 == NUM_COLORS * (q + 1) + 2;
    }
  }

  /**
   * `getch() - '0'`: the integer the main loop compares with a chain link. The
   * digit keys '1'..'4' give exactly the colours and '0' gives the sentinel.
   */
  function KeyValue(key: int): (v: int)
    ensures IsColor(v) <==> '1' as int <= key <= '4' as int
    ensures v == NO_COLOR <==> key == KEY_ZERO
  {
    key - KEY_ZERO
  }

  /**
   * `keyp != memchain[i]` fails: the key reproduces the link. A real colour is
   * reproduced only by a digit key, and the key '0' only by the sentinel.
   */
  predicate KeyMatches(key: int, link: int): (m: bool)
    ensures m && IsColor(link) ==> '1' as int <= key <= '4' as int
    ensures key == KEY_ZERO ==> (m <==> link == NO_COLOR)
  {
    KeyValue(key) == link
  }

  /**
   * Against a real colour only the digit keys '1'..'4' can match, each against
   * its own colour; '0' (the sentinel's digit) and every other key never match.
   */
  lemma OnlyColorKeysMatch(key: int, link: int)
    requires IsColor(link)
    ensures KeyMatches(key, link) <==> '1' as int <= key <= '4' as int && key == KEY_ZERO + link
    ensures key == KEY_ZERO ==> !KeyMatches(key, link)
  {
  }
}

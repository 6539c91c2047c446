/**
 * The feedback evaluator of the game: the letter-count map built from the
 * secret word and the two colouring passes that run over a submitted guess.
 *
 * The model follows the code as written. The second pass does not skip
 * positions the first pass coloured green, so a green cell can be turned
 * yellow while its letter still has count left, and the keyboard colour of a
 * letter is whatever the last write to it was.
 */
module Evaluator {

  /** Background of a grid cell or of a keyboard key. `Unset` is the default background. */
  datatype Colour = Unset | Gray | Yellow | Green

  /** A colour that tells the player the letter occurs in the secret. */
  predicate Hit(c: Colour) { c == Green || c == Yellow }

  /** `getOrDefault(c, 0)` on a letter-count map. */
  function Get(m: map<char, int>, c: char): int { if c in m then m[c] else 0 }

  function Ind(b: bool): int { if b then 1 else 0 }

  // ---------------------------------------------------------------------------
  // countCharacterOccurrences
  // ---------------------------------------------------------------------------

  /** The map the counting loop has built after reading `s` from left to right. */
  function Counts(s: string): map<char, int>
  {
    if s == [] then map[]
    else
      var m := Counts(s[..|s| - 1]);
      m[s[|s| - 1] := Get(m, s[|s| - 1]) + 1]
  }

  /**
   * The keys of the letter-count map are the characters of `s`, and each
   * value is that character's number of occurrences.
   */
  lemma {:induction false} CountsMeaning(s: string)
    ensures forall c :: c in Counts(s) <==> c in s
    ensures forall c | c in Counts(s) :: Counts(s)[c] == multiset(s)[c]
  {
    if s != [] {
      var init, last := s[..|s| - 1], s[|s| - 1];
      assert s == init + [last];
      CountsMeaning(init);
    }
  }

  /** Counting one more character of `s` adds one to that character's count. */
  lemma CountsAppend(s: string, i: nat)
    requires i < |s|
    ensures Counts(s[..i + 1]) == Counts(s[..i])[s[i] := Get(Counts(s[..i]), s[i]) + 1]
  {
    assert s[..i + 1][..i] == s[..i];
  }

  /** The counting loop itself: one map update per character of `str`. */
  method CountCharacterOccurrences(str: string) returns (m: map<char, int>)
    ensures m == Counts(str)
  {
    m := map[];
    var i := 0;
    while i < |str|
      invariant 0 <= i <= |str|
      invariant m == Counts(str[..i])
    {
      CountsAppend(str, i);
      m := m[str[i] := Get(m, str[i]) + 1];
      i := i + 1;
    }
    assert str[..i] == str;
  }

  /** The sum of the values of a map. */
  ghost function SumValues(m: map<char, int>): int
    decreases |m|
  {
    if m == map[] then 0
    else
      var c :| c in m;
      assert (m - {c}).Keys == m.Keys - {c};
      m[c] + SumValues(m - {c})
  }

  /** The sum does not depend on which key is taken out first. */
  lemma {:induction false} SumValuesRemove(m: map<char, int>, c: char)
    requires c in m
    ensures SumValues(m) == m[c] + SumValues(m - {c})
    decreases |m|
  {
    var d :| d in m && SumValues(m) == m[d] + SumValues(m - {d});
    if d != c {
      assert (m - {d}).Keys == m.Keys - {d};
      assert (m - {c}).Keys == m.Keys - {c};
      SumValuesRemove(m - {d}, c);
      SumValuesRemove(m - {c}, d);
      assert m - {d} - {c} == m - {c} - {d};
    }
  }

  /** Adding one to the count of a letter adds one to the sum. */
  lemma SumValuesBump(m: map<char, int>, c: char)
    ensures SumValues(m[c := Get(m, c) + 1]) == SumValues(m) + 1
  {
    var m' := m[c := Get(m, c) + 1];
    SumValuesRemove(m', c);
    assert m' - {c} == m - {c};
    if c in m {
      SumValuesRemove(m, c);
    } else {
      assert m - {c} == m;
    }
  }

  /** The values of the letter-count map of `s` add up to the length of `s`. */
  lemma {:induction false} CountsSumToLength(s: string)
    ensures SumValues(Counts(s)) == |s|
  {
    if s != [] {
      var init, last := s[..|s| - 1], s[|s| - 1];
      assert Counts(s) == Counts(init)[last := Get(Counts(init), last) + 1];
      CountsSumToLength(init);
      SumValuesBump(Counts(init), last);
    }
  }

  // ---------------------------------------------------------------------------
  // gameState: the two colouring passes
  // ---------------------------------------------------------------------------

  /**
   * What the evaluation has produced so far: the remaining letter counts,
   * the colours of the five cells of the row and the keyboard colours.
   */
  datatype Marks = Marks(counts: map<char, int>, cells: seq<Colour>, keys: map<char, Colour>)

  /** Number of positions below `n` that hold letter `c` and are coloured green or yellow. */
  function Tally(guess: string, cells: seq<Colour>, c: char, n: nat): nat
    requires n <= |guess| && n <= |cells|
  {
    if n == 0 then 0
    else Tally(guess, cells, c, n - 1) + Ind(guess[n - 1] == c && Hit(cells[n - 1]))
  }

  lemma {:induction false} TallyUpdate(guess: string, cells: seq<Colour>, c: char, n: nat, k: nat, x: Colour)
    requires n <= |guess| && n <= |cells| && k < |cells|
    ensures Tally(guess, cells[k := x], c, n)
            == Tally(guess, cells, c, n)
               + (if k < n && guess[k] == c then Ind(Hit(x)) - Ind(Hit(cells[k])) else 0)
  {
    if n > 0 {
      TallyUpdate(guess, cells, c, n - 1, k, x);
    }
  }

  /** One iteration of the first loop: an exact match with count left is green, anything else gray. */
  function ExactStep(m: Marks, guess: string, secret: string, i: nat): Marks
    requires i < |guess| <= |secret| && i < |m.cells|
  {
    var g := guess[i];
    var count := Get(m.counts, g);
    if count > 0 && secret[i] == g then
      Marks(m.counts[g := count - 1], m.cells[i := Green], m.keys[g := Green])
    else
      Marks(m.counts, m.cells[i := Gray], m.keys[g := Gray])
  }

  /** The first loop after `n` iterations, starting from the counts of the secret. */
  function ExactPass(guess: string, secret: string, cells0: seq<Colour>, keys0: map<char, Colour>, n: nat): (r: Marks)
    requires n <= |guess| <= |secret| && |cells0| == |guess|
    ensures |r.cells| == |guess|
  {
    if n == 0 then Marks(Counts(secret), cells0, keys0)
    else ExactStep(ExactPass(guess, secret, cells0, keys0, n - 1), guess, secret, n - 1)
  }

  /** One iteration of the second loop: any position whose letter has count left turns yellow. */
  function PresentStep(m: Marks, guess: string, i: nat): Marks
    requires i < |guess| && i < |m.cells|
  {
    var g := guess[i];
    var count := Get(m.counts, g);
    if count > 0 then
      Marks(m.counts[g := count - 1], m.cells[i := Yellow], m.keys[g := Yellow])
    else
      m
  }

  /** The second loop after `n` iterations, starting from what the first loop left. */
  function PresentPass(guess: string, m0: Marks, n: nat): (r: Marks)
    requires n <= |guess| == |m0.cells|
    ensures |r.cells| == |guess|
  {
    if n == 0 then m0
    else PresentStep(PresentPass(guess, m0, n - 1), guess, n - 1)
  }

  /**
   * The first loop colours each visited cell green or gray, green exactly
   * where guess and secret agree, and leaves the rest. An exact match always
   * finds its letter's count positive: the greens before it use up at most
   * the occurrences in the secret before it.
   */
  lemma {:induction false} ExactPassCells(guess: string, secret: string, cells0: seq<Colour>, keys0: map<char, Colour>, n: nat)
    requires n <= |guess| <= |secret| && |cells0| == |guess|
    ensures var r := ExactPass(guess, secret, cells0, keys0, n);
      && (forall j | 0 <= j < n :: r.cells[j] == Green || r.cells[j] == Gray)
      && (forall j | 0 <= j < n :: r.cells[j] == Green <==> guess[j] == secret[j])
      && (forall j | n <= j < |guess| :: r.cells[j] == cells0[j])
  {
    if n > 0 {
      var i := n - 1;
      ExactPassCells(guess, secret, cells0, keys0, i);
      var p := ExactPass(guess, secret, cells0, keys0, i);
      assert ExactPass(guess, secret, cells0, keys0, n) == ExactStep(p, guess, secret, i);
      if guess[i] == secret[i] {
        ExactMatchHasCount(guess, secret, cells0, keys0, i);
      }
    }
  }

  /** When the first loop reaches an exact match, that letter's count is still positive. */
  lemma ExactMatchHasCount(guess: string, secret: string, cells0: seq<Colour>, keys0: map<char, Colour>, i: nat)
    requires i < |guess| <= |secret| && |cells0| == |guess|
    requires guess[i] == secret[i]
    ensures Get(ExactPass(guess, secret, cells0, keys0, i).counts, guess[i]) > 0
  {
    var g := guess[i];
    var p := ExactPass(guess, secret, cells0, keys0, i);
    ExactPassCounts(guess, secret, cells0, keys0, i);
    ExactPassGreensWithinPrefix(guess, secret, cells0, keys0, i);
    assert Get(p.counts, g) + Tally(guess, p.cells, g, i) == multiset(secret)[g];
    assert Tally(guess, p.cells, g, i) <= multiset(secret[..i])[g];
    assert secret == secret[..i] + [g] + secret[i + 1..];
    assert multiset(secret) == multiset(secret[..i]) + multiset([g]) + multiset(secret[i + 1..]);
  }

  /**
   * After `n` iterations of the first loop, the coloured cells of a letter
   * number at most its occurrences among the first `n` letters of the secret.
   */
  lemma {:induction false} ExactPassGreensWithinPrefix(guess: string, secret: string, cells0: seq<Colour>, keys0: map<char, Colour>, n: nat)
    requires n <= |guess| <= |secret| && |cells0| == |guess|
    ensures var r := ExactPass(guess, secret, cells0, keys0, n);
      forall c :: Tally(guess, r.cells, c, n) <= multiset(secret[..n])[c]
  {
    if n > 0 {
      var i := n - 1;
      ExactPassGreensWithinPrefix(guess, secret, cells0, keys0, i);
      var p := ExactPass(guess, secret, cells0, keys0, i);
      var r := ExactPass(guess, secret, cells0, keys0, n);
      assert r == ExactStep(p, guess, secret, i);
      assert forall c :: Tally(guess, p.cells, c, i) <= multiset(secret[..i])[c];
      assert secret[..n] == secret[..i] + [secret[i]];
      forall c ensures Tally(guess, r.cells, c, n) <= multiset(secret[..n])[c] {
        TallyUpdate(guess, p.cells, c, i, i, r.cells[i]);
        assert r.cells == p.cells[i := r.cells[i]];
      }
    }
  }

  /**
   * In the first loop every count stays non-negative, and every count plus
   * the number of coloured cells of its letter is the letter's number of
   * occurrences in the secret.
   */
  lemma {:induction false} ExactPassCounts(guess: string, secret: string, cells0: seq<Colour>, keys0: map<char, Colour>, n: nat)
    requires n <= |guess| <= |secret| && |cells0| == |guess|
    ensures var r := ExactPass(guess, secret, cells0, keys0, n);
      forall c :: Get(r.counts, c) >= 0 && Get(r.counts, c) + Tally(guess, r.cells, c, n) == multiset(secret)[c]
  {
    var r := ExactPass(guess, secret, cells0, keys0, n);
    if n == 0 {
      CountsMeaning(secret);
      forall c ensures Get(r.counts, c) >= 0 && Get(r.counts, c) + Tally(guess, r.cells, c, n) == multiset(secret)[c] {
        if c !in secret {
          assert multiset(secret)[c] == 0;
        }
      }
    } else {
      var i := n - 1;
      ExactPassCounts(guess, secret, cells0, keys0, i);
      var p := ExactPass(guess, secret, cells0, keys0, i);
      assert forall c :: Get(p.counts, c) >= 0 && Get(p.counts, c) + Tally(guess, p.cells, c, i) == multiset(secret)[c];
      assert r == ExactStep(p, guess, secret, i);
      forall c ensures Get(r.counts, c) >= 0 && Get(r.counts, c) + Tally(guess, r.cells, c, n) == multiset(secret)[c] {
        TallyUpdate(guess, p.cells, c, i, i, r.cells[i]);
        assert r.cells == p.cells[i := r.cells[i]];
      }
    }
  }

  /** Number of positions below `n` where guess and secret both hold letter `c`. */
  function ExactMatches(guess: string, secret: string, c: char, n: nat): nat
    requires n <= |guess| <= |secret|
  {
    if n == 0 then 0
    else ExactMatches(guess, secret, c, n - 1) + Ind(guess[n - 1] == c && secret[n - 1] == c)
  }

  /** After `n` iterations of the first loop, the coloured cells of each letter are exactly its exact matches so far. */
  lemma {:induction false} ExactPassGreensAreMatches(guess: string, secret: string, cells0: seq<Colour>, keys0: map<char, Colour>, n: nat)
    requires n <= |guess| <= |secret| && |cells0| == |guess|
    ensures var r := ExactPass(guess, secret, cells0, keys0, n);
      forall c :: Tally(guess, r.cells, c, n) == ExactMatches(guess, secret, c, n)
  {
    if n > 0 {
      var i := n - 1;
      ExactPassGreensAreMatches(guess, secret, cells0, keys0, i);
      ExactPassCells(guess, secret, cells0, keys0, n);
      var p := ExactPass(guess, secret, cells0, keys0, i);
      var r := ExactPass(guess, secret, cells0, keys0, n);
      assert r == ExactStep(p, guess, secret, i);
      assert forall c :: Tally(guess, p.cells, c, i) == ExactMatches(guess, secret, c, i);
      assert r.cells[i] == Green <==> guess[i] == secret[i];
      forall c ensures Tally(guess, r.cells, c, n) == ExactMatches(guess, secret, c, n) {
        TallyUpdate(guess, p.cells, c, i, i, r.cells[i]);
        assert r.cells == p.cells[i := r.cells[i]];
      }
    }
  }

  /**
   * The first loop writes a key for exactly the visited letters, leaves the
   * other keys, and gives a letter absent from the secret a gray key.
   */
  lemma {:induction false} ExactPassKeys(guess: string, secret: string, cells0: seq<Colour>, keys0: map<char, Colour>, n: nat)
    requires n <= |guess| <= |secret| && |cells0| == |guess|
    ensures var r := ExactPass(guess, secret, cells0, keys0, n);
      && (forall c :: c in r.keys <==> c in keys0 || c in guess[..n])
      && (forall c | c in keys0 && c !in guess[..n] :: r.keys[c] == keys0[c])
      && (forall c | c in guess[..n] && c !in secret :: r.keys[c] == Gray)
  {
    if n > 0 {
      var i := n - 1;
      ExactPassKeys(guess, secret, cells0, keys0, i);
      var p := ExactPass(guess, secret, cells0, keys0, i);
      var r := ExactPass(guess, secret, cells0, keys0, n);
      assert r == ExactStep(p, guess, secret, i);
      var g := guess[i];
      assert guess[..n] == guess[..i] + [g];
      forall c | c in guess[..n] && c !in secret ensures r.keys[c] == Gray {
        if c == g {
          assert secret[i] != g;
        }
      }
    }
  }

  /** Position `j` holds the last occurrence of its letter among the first `n` positions of `guess`. */
  predicate LastIn(guess: string, j: nat, n: nat)
    requires j < n <= |guess|
  {
    forall k | j < k < n :: guess[k] != guess[j]
  }

  /**
   * The first loop writes each key together with its cell, so after `n`
   * iterations the key of a letter has the colour of the last cell holding
   * that letter.
   */
  lemma {:induction false} ExactPassKeysFollowCells(guess: string, secret: string, cells0: seq<Colour>, keys0: map<char, Colour>, n: nat)
    requires n <= |guess| <= |secret| && |cells0| == |guess|
    ensures var r := ExactPass(guess, secret, cells0, keys0, n);
      forall j | 0 <= j < n && LastIn(guess, j, n) :: guess[j] in r.keys && r.keys[guess[j]] == r.cells[j]
  {
    if n > 0 {
      var i := n - 1;
      ExactPassKeysFollowCells(guess, secret, cells0, keys0, i);
      var p := ExactPass(guess, secret, cells0, keys0, i);
      var r := ExactPass(guess, secret, cells0, keys0, n);
      assert r == ExactStep(p, guess, secret, i);
      forall j | 0 <= j < n && LastIn(guess, j, n) ensures guess[j] in r.keys && r.keys[guess[j]] == r.cells[j] {
        if j < i {
          assert guess[i] != guess[j];
          assert LastIn(guess, j, i);
        }
      }
    }
  }

  /** Everything the first loop establishes. */
  lemma ExactPassFacts(guess: string, secret: string, cells0: seq<Colour>, keys0: map<char, Colour>, n: nat)
    requires n <= |guess| <= |secret| && |cells0| == |guess|
    ensures var r := ExactPass(guess, secret, cells0, keys0, n);
      && (forall j | 0 <= j < n :: r.cells[j] == Green || r.cells[j] == Gray)
      && (forall j | 0 <= j < n :: r.cells[j] == Green <==> guess[j] == secret[j])
      && (forall j | n <= j < |guess| :: r.cells[j] == cells0[j])
      && (forall c :: Get(r.counts, c) >= 0)
      && (forall c :: Get(r.counts, c) + Tally(guess, r.cells, c, n) == multiset(secret)[c])
      && (forall c :: c in r.keys <==> c in keys0 || c in guess[..n])
      && (forall c | c in keys0 && c !in guess[..n] :: r.keys[c] == keys0[c])
      && (forall c | c in guess[..n] && c !in secret :: r.keys[c] == Gray)
  {
    ExactPassCells(guess, secret, cells0, keys0, n);
    ExactPassCounts(guess, secret, cells0, keys0, n);
    ExactPassKeys(guess, secret, cells0, keys0, n);
  }

  /** The second loop turns visited cells yellow or leaves them, and leaves the rest. */
  lemma {:induction false} PresentPassCells(guess: string, m0: Marks, n: nat)
    requires n <= |guess| == |m0.cells|
    ensures var r := PresentPass(guess, m0, n);
      && (forall j | 0 <= j < n :: r.cells[j] == Yellow || r.cells[j] == m0.cells[j])
      && (forall j | n <= j < |guess| :: r.cells[j] == m0.cells[j])
  {
    if n > 0 {
      PresentPassCells(guess, m0, n - 1);
      assert PresentPass(guess, m0, n) == PresentStep(PresentPass(guess, m0, n - 1), guess, n - 1);
    }
  }

  /**
   * In the second loop counts stay non-negative and only decrease, and
   * together with the coloured cells never exceed the secret's letter
   * counts.
   */
  lemma {:induction false} PresentPassCounts(guess: string, secret: string, m0: Marks, n: nat)
    requires n <= |guess| == |m0.cells|
    requires forall c :: Get(m0.counts, c) >= 0
    requires forall c :: Get(m0.counts, c) + Tally(guess, m0.cells, c, |guess|) <= multiset(secret)[c]
    ensures var r := PresentPass(guess, m0, n);
      && (forall c :: 0 <= Get(r.counts, c) <= Get(m0.counts, c))
      && (forall c :: Get(r.counts, c) + Tally(guess, r.cells, c, |guess|) <= multiset(secret)[c])
  {
    if n > 0 {
      var i := n - 1;
      PresentPassCounts(guess, secret, m0, i);
      var p := PresentPass(guess, m0, i);
      var r := PresentPass(guess, m0, n);
      assert r == PresentStep(p, guess, i);
      forall c ensures Get(r.counts, c) + Tally(guess, r.cells, c, |guess|) <= multiset(secret)[c] {
        TallyUpdate(guess, p.cells, c, |guess|, i, r.cells[i]);
        assert r.cells == p.cells[i := r.cells[i]];
      }
    }
  }

  /**
   * In the second loop a letter whose count was already zero keeps its
   * cells and its key, and no key is removed.
   */
  lemma {:induction false} PresentPassKeys(guess: string, m0: Marks, n: nat)
    requires n <= |guess| == |m0.cells|
    requires forall c :: Get(m0.counts, c) >= 0
    ensures var r := PresentPass(guess, m0, n);
      && (forall c :: 0 <= Get(r.counts, c) <= Get(m0.counts, c))
      && (forall j | 0 <= j < n && Get(m0.counts, guess[j]) == 0 :: r.cells[j] == m0.cells[j])
      && (forall c | c !in guess[..n] || Get(m0.counts, c) == 0 ::
            (c in r.keys <==> c in m0.keys) && (c in m0.keys ==> r.keys[c] == m0.keys[c]))
      && (forall c :: c in m0.keys ==> c in r.keys)
  {
    if n > 0 {
      var i := n - 1;
      PresentPassKeys(guess, m0, i);
      PresentPassCells(guess, m0, i);
      var p := PresentPass(guess, m0, i);
      var r := PresentPass(guess, m0, n);
      assert r == PresentStep(p, guess, i);
      assert guess[..n] == guess[..i] + [guess[i]];
      forall c | c !in guess[..n] || Get(m0.counts, c) == 0
        ensures (c in r.keys <==> c in m0.keys) && (c in m0.keys ==> r.keys[c] == m0.keys[c])
      {
        if c == guess[i] {
          assert Get(m0.counts, c) == 0 && Get(p.counts, c) == 0;
        } else {
          assert c !in guess[..i] || Get(m0.counts, c) == 0;
        }
      }
    }
  }

  /**
   * The second loop turns a visited cell yellow whenever its letter still
   * has count left, so a visited cell that is not yellow belongs to a letter
   * whose count is used up.
   */
  lemma {:induction false} PresentPassUsesUpCounts(guess: string, m0: Marks, n: nat)
    requires n <= |guess| == |m0.cells|
    requires forall c :: Get(m0.counts, c) >= 0
    ensures var r := PresentPass(guess, m0, n);
      forall j | 0 <= j < n && r.cells[j] != Yellow :: Get(r.counts, guess[j]) == 0
  {
    if n > 0 {
      var i := n - 1;
      PresentPassUsesUpCounts(guess, m0, i);
      PresentPassKeys(guess, m0, i);
      var p := PresentPass(guess, m0, i);
      var r := PresentPass(guess, m0, n);
      assert r == PresentStep(p, guess, i);
      assert forall j | 0 <= j < i && p.cells[j] != Yellow :: Get(p.counts, guess[j]) == 0;
      forall j | 0 <= j < n && r.cells[j] != Yellow ensures Get(r.counts, guess[j]) == 0 {
        assert 0 <= Get(p.counts, guess[j]);
        if j < i {
          assert r.cells[j] == p.cells[j];
        }
      }
    }
  }

  /** Number of positions below `n` that hold letter `c` and are coloured yellow. */
  function YellowTally(guess: string, cells: seq<Colour>, c: char, n: nat): nat
    requires n <= |guess| && n <= |cells|
  {
    if n == 0 then 0
    else YellowTally(guess, cells, c, n - 1) + Ind(guess[n - 1] == c && cells[n - 1] == Yellow)
  }

  /** Recolouring a cell at or above `n` does not change the yellow tally below `n`. */
  lemma {:induction false} YellowTallyFrame(guess: string, cells: seq<Colour>, c: char, n: nat, k: nat, x: Colour)
    requires n <= k < |cells| && n <= |guess|
    ensures YellowTally(guess, cells[k := x], c, n) == YellowTally(guess, cells, c, n)
  {
    if n > 0 {
      YellowTallyFrame(guess, cells, c, n - 1, k, x);
    }
  }

  /**
   * The yellow cells of a letter are at most its occurrences in the guess,
   * and when they are fewer some cell holding it is not yellow.
   */
  lemma {:induction false} YellowTallyMissing(guess: string, cells: seq<Colour>, c: char, n: nat)
    requires n <= |guess| && n <= |cells|
    ensures YellowTally(guess, cells, c, n) <= multiset(guess[..n])[c]
    ensures YellowTally(guess, cells, c, n) < multiset(guess[..n])[c] ==>
      exists j | 0 <= j < n && guess[j] == c :: cells[j] != Yellow
  {
    if n > 0 {
      YellowTallyMissing(guess, cells, c, n - 1);
      assert guess[..n] == guess[..n - 1] + [guess[n - 1]];
    }
  }

  /**
   * The second loop takes exactly one count for every cell it turns yellow:
   * starting from a row with no yellow cell, each letter's remaining count
   * plus its yellow cells equals its count before the loop.
   */
  lemma {:induction false} PresentPassSpendsOnePerYellow(guess: string, m0: Marks, n: nat)
    requires n <= |guess| == |m0.cells|
    requires forall j | 0 <= j < |guess| :: m0.cells[j] != Yellow
    ensures var r := PresentPass(guess, m0, n);
      forall c :: Get(r.counts, c) + YellowTally(guess, r.cells, c, n) == Get(m0.counts, c)
  {
    if n > 0 {
      var i := n - 1;
      PresentPassSpendsOnePerYellow(guess, m0, i);
      PresentPassCells(guess, m0, i);
      var p := PresentPass(guess, m0, i);
      var r := PresentPass(guess, m0, n);
      assert r == PresentStep(p, guess, i);
      assert p.cells[i] == m0.cells[i];
      assert forall c :: Get(p.counts, c) + YellowTally(guess, p.cells, c, i) == Get(m0.counts, c);
      forall c ensures Get(r.counts, c) + YellowTally(guess, r.cells, c, n) == Get(m0.counts, c) {
        YellowTallyFrame(guess, p.cells, c, i, i, r.cells[i]);
        assert r.cells == p.cells[i := r.cells[i]];
      }
    }
  }

  /** No position below `n` that holds letter `c` is coloured yellow. */
  predicate NoYellowOf(guess: string, cells: seq<Colour>, c: char, n: nat)
    requires n <= |guess| && n <= |cells|
  {
    forall k | 0 <= k < n && guess[k] == c :: cells[k] != Yellow
  }

  /**
   * The second loop writes a yellow key whenever it writes a yellow cell:
   * starting from a row with no yellow cell, a yellow cell's letter ends
   * with a yellow key, and a letter none of whose cells turned yellow keeps
   * its key.
   */
  lemma {:induction false} PresentPassKeysFollowCells(guess: string, m0: Marks, n: nat)
    requires n <= |guess| == |m0.cells|
    requires forall j | 0 <= j < |guess| :: m0.cells[j] != Yellow
    ensures var r := PresentPass(guess, m0, n);
      && (forall j | 0 <= j < n && r.cells[j] == Yellow :: guess[j] in r.keys && r.keys[guess[j]] == Yellow)
      && (forall c | NoYellowOf(guess, r.cells, c, n) ::
            (c in r.keys <==> c in m0.keys) && (c in m0.keys ==> r.keys[c] == m0.keys[c]))
  {
    if n > 0 {
      var i := n - 1;
      PresentPassKeysFollowCells(guess, m0, i);
      PresentPassCells(guess, m0, i);
      var p := PresentPass(guess, m0, i);
      var r := PresentPass(guess, m0, n);
      assert r == PresentStep(p, guess, i);
      assert p.cells[i] == m0.cells[i];
      forall j | 0 <= j < n && r.cells[j] == Yellow ensures guess[j] in r.keys && r.keys[guess[j]] == Yellow {
        if j < i {
          assert p.cells[j] == Yellow;
        }
      }
      forall c | NoYellowOf(guess, r.cells, c, n)
        ensures (c in r.keys <==> c in m0.keys) && (c in m0.keys ==> r.keys[c] == m0.keys[c])
      {
        assert NoYellowOf(guess, p.cells, c, i) by {
          forall k | 0 <= k < i && guess[k] == c ensures p.cells[k] != Yellow {
            assert r.cells[k] == p.cells[k];
          }
        }
      }
    }
  }

  /** Everything the second loop preserves, given what the first loop left. */
  lemma PresentPassFacts(guess: string, secret: string, m0: Marks, n: nat)
    requires n <= |guess| == |m0.cells|
    requires forall c :: Get(m0.counts, c) >= 0
    requires forall c :: Get(m0.counts, c) + Tally(guess, m0.cells, c, |guess|) <= multiset(secret)[c]
    ensures var r := PresentPass(guess, m0, n);
      && (forall j | 0 <= j < n :: r.cells[j] == Yellow || r.cells[j] == m0.cells[j])
      && (forall j | n <= j < |guess| :: r.cells[j] == m0.cells[j])
      && (forall c :: 0 <= Get(r.counts, c) <= Get(m0.counts, c))
      && (forall c :: Get(r.counts, c) + Tally(guess, r.cells, c, |guess|) <= multiset(secret)[c])
      && (forall j | 0 <= j < n && Get(m0.counts, guess[j]) == 0 :: r.cells[j] == m0.cells[j])
      && (forall c | c !in guess[..n] || Get(m0.counts, c) == 0 ::
            (c in r.keys <==> c in m0.keys) && (c in m0.keys ==> r.keys[c] == m0.keys[c]))
      && (forall c :: c in m0.keys ==> c in r.keys)
  {
    PresentPassCells(guess, m0, n);
    PresentPassCounts(guess, secret, m0, n);
    PresentPassKeys(guess, m0, n);
  }

  /** When no guessed letter has count left, the second loop changes nothing. */
  lemma {:induction false} NothingLeftForSecondPass(guess: string, m0: Marks, n: nat)
    requires n <= |guess| == |m0.cells|
    requires forall j | 0 <= j < n :: Get(m0.counts, guess[j]) <= 0
    ensures PresentPass(guess, m0, n) == m0
  {
    if n > 0 {
      NothingLeftForSecondPass(guess, m0, n - 1);
    }
  }

  /**
   * The colours `gameState` leaves on the row and the keyboard: the first
   * pass, then the second pass. `cells0` and `keys0` are the colours before
   * the call. Every cell of the row ends coloured; a cell ends green only
   * where the guess has the secret's letter, an exact match ends green or
   * yellow, and a cell ends green or gray only when its letter's count is
   * used up: while count is left, the second pass turns the cell yellow.
   */
  function Feedback(guess: string, secret: string, cells0: seq<Colour>, keys0: map<char, Colour>): (r: Marks)
    requires |cells0| == |guess| <= |secret|
    ensures |r.cells| == |guess|
    ensures forall j | 0 <= j < |guess| :: r.cells[j] != Unset
    ensures forall j | 0 <= j < |guess| && r.cells[j] == Green :: guess[j] == secret[j]
    ensures forall j | 0 <= j < |guess| && guess[j] == secret[j] :: Hit(r.cells[j])
    ensures forall j | 0 <= j < |guess| && r.cells[j] != Yellow :: Get(r.counts, guess[j]) == 0
  {
    var m1 := ExactPass(guess, secret, cells0, keys0, |guess|);
    var r := PresentPass(guess, m1, |guess|);
    PassesColourEveryCell(guess, secret, cells0, keys0, m1, r);
    r
  }

  /**
   * After both passes every cell is coloured, green only on an exact match,
   * an exact match is green or yellow, and a cell that is not yellow belongs
   * to a letter with no count left.
   */
  lemma PassesColourEveryCell(guess: string, secret: string, cells0: seq<Colour>, keys0: map<char, Colour>, m1: Marks, r: Marks)
    requires |cells0| == |guess| <= |secret|
    requires m1 == ExactPass(guess, secret, cells0, keys0, |guess|) && r == PresentPass(guess, m1, |guess|)
    ensures forall j | 0 <= j < |guess| :: r.cells[j] != Unset
    ensures forall j | 0 <= j < |guess| && r.cells[j] == Green :: guess[j] == secret[j]
    ensures forall j | 0 <= j < |guess| && guess[j] == secret[j] :: Hit(r.cells[j])
    ensures forall j | 0 <= j < |guess| && r.cells[j] != Yellow :: Get(r.counts, guess[j]) == 0
  {
    ExactPassCells(guess, secret, cells0, keys0, |guess|);
    ExactPassCounts(guess, secret, cells0, keys0, |guess|);
    assert forall c :: Get(m1.counts, c) >= 0;
    PresentPassCells(guess, m1, |guess|);
    PresentPassUsesUpCounts(guess, m1, |guess|);
    forall j | 0 <= j < |guess|
      ensures r.cells[j] != Unset && (r.cells[j] == Green <==> guess[j] == secret[j] && r.cells[j] != Yellow)
    {
      assert m1.cells[j] in {Green, Gray};
      assert r.cells[j] == Yellow || r.cells[j] == m1.cells[j];
    }
  }

  /**
   * No count goes negative, and for every letter the number of positions
   * holding it that end green or yellow is at most its number of
   * occurrences in the secret.
   */
  lemma FeedbackWithinSecret(guess: string, secret: string, cells0: seq<Colour>, keys0: map<char, Colour>)
    requires |cells0| == |guess| <= |secret|
    ensures var r := Feedback(guess, secret, cells0, keys0);
      && (forall c | c in r.counts :: r.counts[c] >= 0)
      && (forall c :: Tally(guess, r.cells, c, |guess|) <= multiset(secret)[c])
  {
    var m1 := ExactPass(guess, secret, cells0, keys0, |guess|);
    ExactPassFacts(guess, secret, cells0, keys0, |guess|);
    assert forall c :: Get(m1.counts, c) + Tally(guess, m1.cells, c, |guess|) == multiset(secret)[c];
    assert forall c :: Get(m1.counts, c) >= 0;
    PresentPassFacts(guess, secret, m1, |guess|);
    var r := Feedback(guess, secret, cells0, keys0);
    forall c | c in r.counts ensures r.counts[c] >= 0 {
      assert Get(r.counts, c) >= 0;
    }
  }

  /** A letter that does not occur in the secret ends gray in every cell holding it and on its key. */
  lemma AbsentLetterIsGray(guess: string, secret: string, cells0: seq<Colour>, keys0: map<char, Colour>, j: nat)
    requires |cells0| == |guess| <= |secret|
    requires j < |guess| && guess[j] !in secret
    ensures var r := Feedback(guess, secret, cells0, keys0);
      r.cells[j] == Gray && guess[j] in r.keys && r.keys[guess[j]] == Gray
  {
    var c := guess[j];
    var m1 := ExactPass(guess, secret, cells0, keys0, |guess|);
    ExactPassFacts(guess, secret, cells0, keys0, |guess|);
    assert forall c :: Get(m1.counts, c) + Tally(guess, m1.cells, c, |guess|) == multiset(secret)[c];
    assert forall c :: Get(m1.counts, c) >= 0;
    PresentPassFacts(guess, secret, m1, |guess|);
    assert guess[..|guess|] == guess;
    assert multiset(secret)[c] == 0;
    assert Get(m1.counts, c) == 0;
    assert secret[j] != c;
  }

  function Min(a: int, b: int): int { if a <= b then a else b }

  /**
   * Starting from a row with no yellow cell and non-negative counts, the
   * second loop leaves as many yellow cells of each letter as the smaller
   * of its occurrences in the guess and its count before the loop.
   */
  lemma PresentPassYellowCount(guess: string, m0: Marks, c: char)
    requires |guess| == |m0.cells|
    requires forall j | 0 <= j < |guess| :: m0.cells[j] != Yellow
    requires forall d :: Get(m0.counts, d) >= 0
    ensures YellowTally(guess, PresentPass(guess, m0, |guess|).cells, c, |guess|)
      == Min(multiset(guess)[c], Get(m0.counts, c))
  {
    var n := |guess|;
    var r := PresentPass(guess, m0, n);
    PresentPassSpendsOnePerYellow(guess, m0, n);
    PresentPassUsesUpCounts(guess, m0, n);
    PresentPassKeys(guess, m0, n);
    assert Get(r.counts, c) + YellowTally(guess, r.cells, c, n) == Get(m0.counts, c);
    assert 0 <= Get(r.counts, c);
    YellowTallyMissing(guess, r.cells, c, n);
    assert guess[..n] == guess;
    if YellowTally(guess, r.cells, c, n) < multiset(guess)[c] {
      var j :| 0 <= j < n && guess[j] == c && r.cells[j] != Yellow;
      assert Get(r.counts, c) == 0;
    }
  }

  /**
   * After both passes the number of yellow cells of each letter is the
   * smaller of its occurrences in the guess and the count the first pass
   * left for it: its occurrences in the secret minus its exact matches.
   */
  lemma FeedbackYellowCount(guess: string, secret: string, cells0: seq<Colour>, keys0: map<char, Colour>, c: char)
    requires |cells0| == |guess| <= |secret|
    ensures var r := Feedback(guess, secret, cells0, keys0);
      YellowTally(guess, r.cells, c, |guess|)
      == Min(multiset(guess)[c], multiset(secret)[c] - ExactMatches(guess, secret, c, |guess|))
  {
    var n := |guess|;
    var m1 := ExactPass(guess, secret, cells0, keys0, n);
    ExactPassCells(guess, secret, cells0, keys0, n);
    ExactPassCounts(guess, secret, cells0, keys0, n);
    ExactPassGreensAreMatches(guess, secret, cells0, keys0, n);
    assert Get(m1.counts, c) == multiset(secret)[c] - ExactMatches(guess, secret, c, n);
    assert forall d :: Get(m1.counts, d) >= 0;
    assert forall j | 0 <= j < n :: m1.cells[j] != Yellow;
    PresentPassYellowCount(guess, m1, c);
  }

  /**
   * After both passes the key of a guessed letter is yellow when some cell
   * holding that letter ended yellow, and otherwise has the colour of the
   * last cell holding it.
   */
  lemma FeedbackKeysFollowCells(guess: string, secret: string, cells0: seq<Colour>, keys0: map<char, Colour>, j: nat)
    requires |cells0| == |guess| <= |secret|
    requires j < |guess| && LastIn(guess, j, |guess|)
    ensures var r := Feedback(guess, secret, cells0, keys0);
      && guess[j] in r.keys
      && r.keys[guess[j]] == (if NoYellowOf(guess, r.cells, guess[j], |guess|) then r.cells[j] else Yellow)
  {
    var m1 := ExactPass(guess, secret, cells0, keys0, |guess|);
    var r := PresentPass(guess, m1, |guess|);
    ExactPassCells(guess, secret, cells0, keys0, |guess|);
    ExactPassKeysFollowCells(guess, secret, cells0, keys0, |guess|);
    assert forall k | 0 <= k < |guess| :: m1.cells[k] != Yellow;
    PresentPassCells(guess, m1, |guess|);
    PresentPassKeysFollowCells(guess, m1, |guess|);
    var g := guess[j];
    if !NoYellowOf(guess, r.cells, g, |guess|) {
      var k :| 0 <= k < |guess| && guess[k] == g && r.cells[k] == Yellow;
    } else {
      assert r.cells[j] == m1.cells[j];
    }
  }

  /** Keys of letters that are not in the guess keep their colour, and no key is removed. */
  lemma FeedbackKeepsOtherKeys(guess: string, secret: string, cells0: seq<Colour>, keys0: map<char, Colour>)
    requires |cells0| == |guess| <= |secret|
    ensures var r := Feedback(guess, secret, cells0, keys0);
      && (forall c :: c in r.keys <==> c in keys0 || c in guess)
      && (forall c | c in keys0 && c !in guess :: r.keys[c] == keys0[c])
  {
    var m1 := ExactPass(guess, secret, cells0, keys0, |guess|);
    ExactPassFacts(guess, secret, cells0, keys0, |guess|);
    assert forall c :: Get(m1.counts, c) + Tally(guess, m1.cells, c, |guess|) == multiset(secret)[c];
    assert forall c :: Get(m1.counts, c) >= 0;
    PresentPassFacts(guess, secret, m1, |guess|);
    assert guess[..|guess|] == guess;
  }

  /** On the secret itself the first pass colours every position green and counts each letter off. */
  lemma {:induction false} ExactPassOnSecret(s: string, cells0: seq<Colour>, keys0: map<char, Colour>, n: nat)
    requires n <= |s| && |cells0| == |s|
    ensures var r := ExactPass(s, s, cells0, keys0, n);
      && (forall j | 0 <= j < n :: r.cells[j] == Green)
      && (forall c :: Tally(s, r.cells, c, n) == multiset(s[..n])[c])
      && (forall c | c in s[..n] :: c in r.keys && r.keys[c] == Green)
  {
    if n > 0 {
      var i := n - 1;
      ExactPassOnSecret(s, cells0, keys0, i);
      ExactPassCounts(s, s, cells0, keys0, i);
      var p := ExactPass(s, s, cells0, keys0, i);
      var r := ExactPass(s, s, cells0, keys0, n);
      var g := s[i];
      assert s[..n] == s[..i] + [g];
      assert s == s[..i] + s[i..];
      assert multiset(s) == multiset(s[..i]) + multiset(s[i..]);
      assert g in multiset(s[i..]);
      assert Tally(s, p.cells, g, i) == multiset(s[..i])[g];
      assert Get(p.counts, g) + Tally(s, p.cells, g, i) == multiset(s)[g];
      assert Get(p.counts, g) == multiset(s[i..])[g];
      assert r == ExactStep(p, s, s, i);
      forall c ensures Tally(s, r.cells, c, n) == multiset(s[..n])[c] {
        TallyUpdate(s, p.cells, c, i, i, Green);
        assert r.cells == p.cells[i := Green];
      }
    }
  }

  /** A guess equal to the secret leaves every cell green and every key of its letters green. */
  lemma FeedbackOnSecret(s: string, cells0: seq<Colour>, keys0: map<char, Colour>)
    requires |cells0| == |s|
    ensures var r := Feedback(s, s, cells0, keys0);
      && (forall j | 0 <= j < |s| :: r.cells[j] == Green)
      && (forall c | c in s :: c in r.keys && r.keys[c] == Green)
  {
    var m1 := ExactPass(s, s, cells0, keys0, |s|);
    ExactPassOnSecret(s, cells0, keys0, |s|);
    ExactPassFacts(s, s, cells0, keys0, |s|);
    assert forall c :: Get(m1.counts, c) + Tally(s, m1.cells, c, |s|) == multiset(s)[c];
    assert forall c :: Get(m1.counts, c) >= 0;
    PresentPassFacts(s, s, m1, |s|);
    assert s[..|s|] == s;
    assert forall c :: Get(m1.counts, c) == 0;
  }

  // ---------------------------------------------------------------------------
  // Worked examples
  // ---------------------------------------------------------------------------

  /** The first pass over a five-letter guess, written out as its five iterations. */
  lemma ExactPassOfFive(g: string, s: string, u: seq<Colour>, keys0: map<char, Colour>)
    requires |g| == 5 <= |s| && |u| == 5
    ensures var e0 := ExactPass(g, s, u, keys0, 0);
      ExactPass(g, s, u, keys0, 5)
      == ExactStep(ExactStep(ExactStep(ExactStep(ExactStep(e0, g, s, 0), g, s, 1), g, s, 2), g, s, 3), g, s, 4)
  {
    var e0 := ExactPass(g, s, u, keys0, 0);
    var e1 := ExactPass(g, s, u, keys0, 1);
    assert e1 == ExactStep(e0, g, s, 0);
    var e2 := ExactPass(g, s, u, keys0, 2);
    assert e2 == ExactStep(e1, g, s, 1);
    var e3 := ExactPass(g, s, u, keys0, 3);
    assert e3 == ExactStep(e2, g, s, 2);
    var e4 := ExactPass(g, s, u, keys0, 4);
    assert e4 == ExactStep(e3, g, s, 3);
  }

  // Each example runs the first pass in one helper lemma and the second in
  // another, stepping through the loop iterations one at a time. The helpers
  // take the words as parameters so that the verifier unfolds one iteration
  // per step.

  lemma LlamaFirstPass(g: string, s: string, u: seq<Colour>)
    requires g == "lxlxx" && s == "llama" && u == [Unset, Unset, Unset, Unset, Unset]
    ensures var e := ExactPass(g, s, u, map[], 5);
      && Get(e.counts, 'l') == 1 && Get(e.counts, 'x') == 0
      && e.cells == [Green, Gray, Gray, Gray, Gray]
  {
    CountsMeaning(s);
    assert multiset(s)['l'] == 2 && multiset(s)['x'] == 0;
    LlamaExactSteps(g, s, ExactPass(g, s, u, map[], 0));
    ExactPassOfFive(g, s, u, map[]);
  }

  lemma LlamaExactSteps(g: string, s: string, e0: Marks)
    requires g == "lxlxx" && s == "llama" && e0.cells == [Unset, Unset, Unset, Unset, Unset]
    requires Get(e0.counts, 'l') == 2 && Get(e0.counts, 'x') == 0
    ensures var e := ExactStep(ExactStep(ExactStep(ExactStep(ExactStep(e0, g, s, 0), g, s, 1), g, s, 2), g, s, 3), g, s, 4);
      && Get(e.counts, 'l') == 1 && Get(e.counts, 'x') == 0
      && e.cells == [Green, Gray, Gray, Gray, Gray]
  {
    var e1 := ExactStep(e0, g, s, 0);
    assert Get(e1.counts, 'l') == 1 && Get(e1.counts, 'x') == 0;
    var e2 := ExactStep(e1, g, s, 1);
    assert Get(e2.counts, 'l') == 1 && Get(e2.counts, 'x') == 0;
    var e3 := ExactStep(e2, g, s, 2);
    assert Get(e3.counts, 'l') == 1 && Get(e3.counts, 'x') == 0;
    var e4 := ExactStep(e3, g, s, 3);
    assert Get(e4.counts, 'l') == 1 && Get(e4.counts, 'x') == 0;
  }

  lemma LlamaSecondPass(g: string, e: Marks)
    requires g == "lxlxx" && e.cells == [Green, Gray, Gray, Gray, Gray]
    requires Get(e.counts, 'l') == 1 && Get(e.counts, 'x') == 0
    ensures PresentPass(g, e, 5).cells == [Yellow, Gray, Gray, Gray, Gray]
  {
    assert PresentPass(g, e, 0) == e;
    var p1 := PresentPass(g, e, 1);
    assert Get(p1.counts, 'l') == 0 && Get(p1.counts, 'x') == 0 && p1.cells == [Yellow, Gray, Gray, Gray, Gray];
    var p2 := PresentPass(g, e, 2);
    assert Get(p2.counts, 'l') == 0 && p2.cells == p1.cells;
    var p3 := PresentPass(g, e, 3);
    assert Get(p3.counts, 'l') == 0 && p3.cells == p1.cells;
    var p4 := PresentPass(g, e, 4);
    assert p4.cells == p1.cells;
  }

  /**
   * Secret "llama", guess "lxlxx": the first pass colours position 0 green,
   * but one `l` is still counted, so the second pass turns that same cell
   * yellow. The row ends yellow, gray, gray, gray, gray.
   */
  lemma GreenOverwrittenByYellow()
    ensures Feedback("lxlxx", "llama", [Unset, Unset, Unset, Unset, Unset], map[]).cells == [Yellow, Gray, Gray, Gray, Gray]
  {
    LlamaFirstPass("lxlxx", "llama", [Unset, Unset, Unset, Unset, Unset]);
    LlamaSecondPass("lxlxx", ExactPass("lxlxx", "llama", [Unset, Unset, Unset, Unset, Unset], map[], 5));
  }

  lemma AabcdFirstPass(g: string, s: string, u: seq<Colour>)
    requires g == "xxaax" && s == "aabcd" && u == [Unset, Unset, Unset, Unset, Unset]
    ensures var e := ExactPass(g, s, u, map[], 5);
      && Get(e.counts, 'a') == 2 && Get(e.counts, 'x') == 0
      && e.cells == [Gray, Gray, Gray, Gray, Gray]
  {
    CountsMeaning(s);
    assert multiset(s)['a'] == 2 && multiset(s)['x'] == 0;
    AabcdExactSteps(g, s, ExactPass(g, s, u, map[], 0));
    ExactPassOfFive(g, s, u, map[]);
  }

  lemma AabcdExactSteps(g: string, s: string, e0: Marks)
    requires g == "xxaax" && s == "aabcd" && e0.cells == [Unset, Unset, Unset, Unset, Unset]
    requires Get(e0.counts, 'a') == 2 && Get(e0.counts, 'x') == 0
    ensures var e := ExactStep(ExactStep(ExactStep(ExactStep(ExactStep(e0, g, s, 0), g, s, 1), g, s, 2), g, s, 3), g, s, 4);
      && Get(e.counts, 'a') == 2 && Get(e.counts, 'x') == 0
      && e.cells == [Gray, Gray, Gray, Gray, Gray]
  {
    var e1 := ExactStep(e0, g, s, 0);
    assert Get(e1.counts, 'a') == 2 && Get(e1.counts, 'x') == 0;
    var e2 := ExactStep(e1, g, s, 1);
    assert Get(e2.counts, 'a') == 2 && Get(e2.counts, 'x') == 0;
    var e3 := ExactStep(e2, g, s, 2);
    assert Get(e3.counts, 'a') == 2 && Get(e3.counts, 'x') == 0;
    var e4 := ExactStep(e3, g, s, 3);
    assert Get(e4.counts, 'a') == 2 && Get(e4.counts, 'x') == 0;
  }

  lemma AabcdSecondPass(g: string, e: Marks)
    requires g == "xxaax" && e.cells == [Gray, Gray, Gray, Gray, Gray]
    requires Get(e.counts, 'a') == 2 && Get(e.counts, 'x') == 0
    ensures PresentPass(g, e, 5).cells == [Gray, Gray, Yellow, Yellow, Gray]
  {
    assert PresentPass(g, e, 0) == e;
    var p1 := PresentPass(g, e, 1);
    assert p1 == e;
    var p2 := PresentPass(g, e, 2);
    assert p2 == e;
    var p3 := PresentPass(g, e, 3);
    assert Get(p3.counts, 'a') == 1 && Get(p3.counts, 'x') == 0 && p3.cells == [Gray, Gray, Yellow, Gray, Gray];
    var p4 := PresentPass(g, e, 4);
    assert Get(p4.counts, 'x') == 0 && p4.cells == [Gray, Gray, Yellow, Yellow, Gray];
  }

  /**
   * Secret "aabcd", guess "xxaax": the guess doubles a letter the secret
   * also doubles, neither in place, so the second pass takes one count for
   * each `a` and both end yellow: gray, gray, yellow, yellow, gray.
   */
  lemma DoubledLetterBothYellow()
    ensures Feedback("xxaax", "aabcd", [Unset, Unset, Unset, Unset, Unset], map[]).cells == [Gray, Gray, Yellow, Yellow, Gray]
  {
    AabcdFirstPass("xxaax", "aabcd", [Unset, Unset, Unset, Unset, Unset]);
    AabcdSecondPass("xxaax", ExactPass("xxaax", "aabcd", [Unset, Unset, Unset, Unset, Unset], map[], 5));
  }

  lemma CraneFirstPass(g: string, s: string, u: seq<Colour>)
    requires g == "acorn" && s == "crane" && u == [Unset, Unset, Unset, Unset, Unset]
    ensures var e := ExactPass(g, s, u, map[], 5);
      && Get(e.counts, 'a') == 1 && Get(e.counts, 'c') == 1 && Get(e.counts, 'o') == 0 && Get(e.counts, 'r') == 1 && Get(e.counts, 'n') == 1
      && e.cells == [Gray, Gray, Gray, Gray, Gray]
  {
    CountsMeaning(s);
    assert multiset(s)['a'] == 1 && multiset(s)['c'] == 1 && multiset(s)['o'] == 0 && multiset(s)['r'] == 1 && multiset(s)['n'] == 1;
    CraneExactSteps(g, s, ExactPass(g, s, u, map[], 0));
    ExactPassOfFive(g, s, u, map[]);
  }

  lemma CraneExactSteps(g: string, s: string, e0: Marks)
    requires g == "acorn" && s == "crane" && e0.cells == [Unset, Unset, Unset, Unset, Unset]
    requires Get(e0.counts, 'a') == 1 && Get(e0.counts, 'c') == 1 && Get(e0.counts, 'o') == 0 && Get(e0.counts, 'r') == 1 && Get(e0.counts, 'n') == 1
    ensures var e := ExactStep(ExactStep(ExactStep(ExactStep(ExactStep(e0, g, s, 0), g, s, 1), g, s, 2), g, s, 3), g, s, 4);
      && Get(e.counts, 'a') == 1 && Get(e.counts, 'c') == 1 && Get(e.counts, 'o') == 0 && Get(e.counts, 'r') == 1 && Get(e.counts, 'n') == 1
      && e.cells == [Gray, Gray, Gray, Gray, Gray]
  {
    var e1 := ExactStep(e0, g, s, 0);
    assert Get(e1.counts, 'a') == 1 && Get(e1.counts, 'c') == 1 && Get(e1.counts, 'o') == 0 && Get(e1.counts, 'r') == 1 && Get(e1.counts, 'n') == 1;
    var e2 := ExactStep(e1, g, s, 1);
    assert Get(e2.counts, 'a') == 1 && Get(e2.counts, 'c') == 1 && Get(e2.counts, 'o') == 0 && Get(e2.counts, 'r') == 1 && Get(e2.counts, 'n') == 1;
    var e3 := ExactStep(e2, g, s, 2);
    assert Get(e3.counts, 'a') == 1 && Get(e3.counts, 'c') == 1 && Get(e3.counts, 'o') == 0 && Get(e3.counts, 'r') == 1 && Get(e3.counts, 'n') == 1;
    var e4 := ExactStep(e3, g, s, 3);
    assert Get(e4.counts, 'a') == 1 && Get(e4.counts, 'c') == 1 && Get(e4.counts, 'o') == 0 && Get(e4.counts, 'r') == 1 && Get(e4.counts, 'n') == 1;
  }

  lemma CraneSecondPass(g: string, e: Marks)
    requires g == "acorn" && e.cells == [Gray, Gray, Gray, Gray, Gray]
    requires Get(e.counts, 'a') == 1 && Get(e.counts, 'c') == 1 && Get(e.counts, 'o') == 0
    requires Get(e.counts, 'r') == 1 && Get(e.counts, 'n') == 1
    ensures PresentPass(g, e, 5).cells == [Yellow, Yellow, Gray, Yellow, Yellow]
  {
    assert PresentPass(g, e, 0) == e;
    var p1 := PresentPass(g, e, 1);
    assert Get(p1.counts, 'c') == 1 && Get(p1.counts, 'o') == 0 && Get(p1.counts, 'r') == 1 && Get(p1.counts, 'n') == 1;
    assert p1.cells == [Yellow, Gray, Gray, Gray, Gray];
    var p2 := PresentPass(g, e, 2);
    assert Get(p2.counts, 'o') == 0 && Get(p2.counts, 'r') == 1 && Get(p2.counts, 'n') == 1;
    assert p2.cells == [Yellow, Yellow, Gray, Gray, Gray];
    var p3 := PresentPass(g, e, 3);
    assert Get(p3.counts, 'r') == 1 && Get(p3.counts, 'n') == 1 && p3.cells == p2.cells;
    var p4 := PresentPass(g, e, 4);
    assert Get(p4.counts, 'n') == 1 && p4.cells == [Yellow, Yellow, Gray, Yellow, Gray];
  }

  /** Secret "crane", guess "acorn": every letter but `o` is in the secret, none in place. */
  lemma AllDisplaced()
    ensures Feedback("acorn", "crane", [Unset, Unset, Unset, Unset, Unset], map[]).cells == [Yellow, Yellow, Gray, Yellow, Yellow]
  {
    CraneFirstPass("acorn", "crane", [Unset, Unset, Unset, Unset, Unset]);
    CraneSecondPass("acorn", ExactPass("acorn", "crane", [Unset, Unset, Unset, Unset, Unset], map[], 5));
  }

  lemma AbbeyFirstPass(g: string, s: string, u: seq<Colour>)
    requires g == "babes" && s == "abbey" && u == [Unset, Unset, Unset, Unset, Unset]
    ensures var e := ExactPass(g, s, u, map[], 5);
      && Get(e.counts, 'a') == 1 && Get(e.counts, 'b') == 1 && Get(e.counts, 'e') == 0 && Get(e.counts, 's') == 0
      && e.cells == [Gray, Gray, Green, Green, Gray]
  {
    CountsMeaning(s);
    assert multiset(s)['a'] == 1 && multiset(s)['b'] == 2 && multiset(s)['e'] == 1 && multiset(s)['s'] == 0;
    AbbeyExactSteps(g, s, ExactPass(g, s, u, map[], 0));
    ExactPassOfFive(g, s, u, map[]);
  }

  lemma AbbeyExactSteps(g: string, s: string, e0: Marks)
    requires g == "babes" && s == "abbey" && e0.cells == [Unset, Unset, Unset, Unset, Unset]
    requires Get(e0.counts, 'a') == 1 && Get(e0.counts, 'b') == 2 && Get(e0.counts, 'e') == 1 && Get(e0.counts, 's') == 0
    ensures var e := ExactStep(ExactStep(ExactStep(ExactStep(ExactStep(e0, g, s, 0), g, s, 1), g, s, 2), g, s, 3), g, s, 4);
      && Get(e.counts, 'a') == 1 && Get(e.counts, 'b') == 1 && Get(e.counts, 'e') == 0 && Get(e.counts, 's') == 0
      && e.cells == [Gray, Gray, Green, Green, Gray]
  {
    var e1 := ExactStep(e0, g, s, 0);
    assert Get(e1.counts, 'a') == 1 && Get(e1.counts, 'b') == 2 && Get(e1.counts, 'e') == 1 && Get(e1.counts, 's') == 0;
    var e2 := ExactStep(e1, g, s, 1);
    assert Get(e2.counts, 'a') == 1 && Get(e2.counts, 'b') == 2 && Get(e2.counts, 'e') == 1 && Get(e2.counts, 's') == 0;
    var e3 := ExactStep(e2, g, s, 2);
    assert Get(e3.counts, 'a') == 1 && Get(e3.counts, 'b') == 1 && Get(e3.counts, 'e') == 1 && Get(e3.counts, 's') == 0;
    var e4 := ExactStep(e3, g, s, 3);
    assert Get(e4.counts, 'a') == 1 && Get(e4.counts, 'b') == 1 && Get(e4.counts, 'e') == 0 && Get(e4.counts, 's') == 0;
  }

  lemma AbbeySecondPass(g: string, e: Marks)
    requires g == "babes" && e.cells == [Gray, Gray, Green, Green, Gray]
    requires Get(e.counts, 'a') == 1 && Get(e.counts, 'b') == 1 && Get(e.counts, 'e') == 0 && Get(e.counts, 's') == 0
    ensures PresentPass(g, e, 5).cells == [Yellow, Yellow, Green, Green, Gray]
  {
    assert PresentPass(g, e, 0) == e;
    var p1 := PresentPass(g, e, 1);
    assert Get(p1.counts, 'a') == 1 && Get(p1.counts, 'b') == 0 && Get(p1.counts, 'e') == 0 && Get(p1.counts, 's') == 0;
    assert p1.cells == [Yellow, Gray, Green, Green, Gray];
    var p2 := PresentPass(g, e, 2);
    assert Get(p2.counts, 'b') == 0 && Get(p2.counts, 'e') == 0 && Get(p2.counts, 's') == 0;
    assert p2.cells == [Yellow, Yellow, Green, Green, Gray];
    var p3 := PresentPass(g, e, 3);
    assert Get(p3.counts, 'e') == 0 && Get(p3.counts, 's') == 0 && p3.cells == p2.cells;
    var p4 := PresentPass(g, e, 4);
    assert Get(p4.counts, 's') == 0 && p4.cells == p2.cells;
  }

  /** Secret "abbey", guess "babes": exact matches take their counts first. */
  lemma RepeatedLetters()
    ensures Feedback("babes", "abbey", [Unset, Unset, Unset, Unset, Unset], map[]).cells == [Yellow, Yellow, Green, Green, Gray]
  {
    AbbeyFirstPass("babes", "abbey", [Unset, Unset, Unset, Unset, Unset]);
    AbbeySecondPass("babes", ExactPass("babes", "abbey", [Unset, Unset, Unset, Unset, Unset], map[], 5));
  }

  lemma AppleFirstPass(g: string, s: string, u: seq<Colour>)
    requires g == "pppps" && s == "apple" && u == [Unset, Unset, Unset, Unset, Unset]
    ensures var e := ExactPass(g, s, u, map[], 5);
      && Get(e.counts, 'p') == 0 && Get(e.counts, 's') == 0
      && e.cells == [Gray, Green, Green, Gray, Gray]
  {
    CountsMeaning(s);
    assert multiset(s)['p'] == 2 && multiset(s)['s'] == 0;
    AppleExactSteps(g, s, ExactPass(g, s, u, map[], 0));
    ExactPassOfFive(g, s, u, map[]);
  }

  lemma AppleExactSteps(g: string, s: string, e0: Marks)
    requires g == "pppps" && s == "apple" && e0.cells == [Unset, Unset, Unset, Unset, Unset]
    requires Get(e0.counts, 'p') == 2 && Get(e0.counts, 's') == 0
    ensures var e := ExactStep(ExactStep(ExactStep(ExactStep(ExactStep(e0, g, s, 0), g, s, 1), g, s, 2), g, s, 3), g, s, 4);
      && Get(e.counts, 'p') == 0 && Get(e.counts, 's') == 0
      && e.cells == [Gray, Green, Green, Gray, Gray]
  {
    var e1 := ExactStep(e0, g, s, 0);
    assert Get(e1.counts, 'p') == 2 && Get(e1.counts, 's') == 0;
    var e2 := ExactStep(e1, g, s, 1);
    assert Get(e2.counts, 'p') == 1 && Get(e2.counts, 's') == 0;
    var e3 := ExactStep(e2, g, s, 2);
    assert Get(e3.counts, 'p') == 0 && Get(e3.counts, 's') == 0;
    var e4 := ExactStep(e3, g, s, 3);
    assert Get(e4.counts, 'p') == 0 && Get(e4.counts, 's') == 0;
  }

  /**
   * Secret "apple", guess "pppps": both `p`s of the secret are matched in
   * place, so no count is left and the other guessed `p`s stay gray.
   */
  lemma SurplusLetters()
    ensures Feedback("pppps", "apple", [Unset, Unset, Unset, Unset, Unset], map[]).cells == [Gray, Green, Green, Gray, Gray]
  {
    AppleFirstPass("pppps", "apple", [Unset, Unset, Unset, Unset, Unset]);
    NothingLeftForSecondPass("pppps", ExactPass("pppps", "apple", [Unset, Unset, Unset, Unset, Unset], map[], 5), 5);
  }

  lemma FirstGuessFirstPass(g: string, s: string, u: seq<Colour>)
    requires g == "bxxxx" && s == "bcdef" && u == [Unset, Unset, Unset, Unset, Unset]
    ensures var e := ExactPass(g, s, u, map[], 5);
      && Get(e.counts, 'b') == 0 && Get(e.counts, 'x') == 0
      && |e.cells| == 5
      && 'b' in e.keys && e.keys['b'] == Green
  {
    CountsMeaning(s);
    assert multiset(s)['b'] == 1 && multiset(s)['x'] == 0;
    FirstGuessExactSteps(g, s, ExactPass(g, s, u, map[], 0));
    ExactPassOfFive(g, s, u, map[]);
  }

  lemma FirstGuessExactSteps(g: string, s: string, e0: Marks)
    requires g == "bxxxx" && s == "bcdef" && e0.cells == [Unset, Unset, Unset, Unset, Unset]
    requires Get(e0.counts, 'b') == 1 && Get(e0.counts, 'x') == 0
    ensures var e := ExactStep(ExactStep(ExactStep(ExactStep(ExactStep(e0, g, s, 0), g, s, 1), g, s, 2), g, s, 3), g, s, 4);
      && Get(e.counts, 'b') == 0 && Get(e.counts, 'x') == 0
      && |e.cells| == 5
      && 'b' in e.keys && e.keys['b'] == Green
  {
    var e1 := ExactStep(e0, g, s, 0);
    assert Get(e1.counts, 'b') == 0 && Get(e1.counts, 'x') == 0;
    var e2 := ExactStep(e1, g, s, 1);
    assert Get(e2.counts, 'b') == 0 && Get(e2.counts, 'x') == 0;
    var e3 := ExactStep(e2, g, s, 2);
    assert Get(e3.counts, 'b') == 0 && Get(e3.counts, 'x') == 0;
    var e4 := ExactStep(e3, g, s, 3);
    assert Get(e4.counts, 'b') == 0 && Get(e4.counts, 'x') == 0;
  }

  lemma SecondGuessFirstPass(g: string, s: string, u: seq<Colour>, keys0: map<char, Colour>)
    requires g == "xbxxx" && s == "bcdef" && u == [Unset, Unset, Unset, Unset, Unset]
    ensures var e := ExactPass(g, s, u, keys0, 5);
      && Get(e.counts, 'b') == 1 && Get(e.counts, 'x') == 0
      && |e.cells| == 5
  {
    CountsMeaning(s);
    assert multiset(s)['b'] == 1 && multiset(s)['x'] == 0;
    SecondGuessExactSteps(g, s, ExactPass(g, s, u, keys0, 0));
    ExactPassOfFive(g, s, u, keys0);
  }

  lemma SecondGuessExactSteps(g: string, s: string, e0: Marks)
    requires g == "xbxxx" && s == "bcdef" && e0.cells == [Unset, Unset, Unset, Unset, Unset]
    requires Get(e0.counts, 'b') == 1 && Get(e0.counts, 'x') == 0
    ensures var e := ExactStep(ExactStep(ExactStep(ExactStep(ExactStep(e0, g, s, 0), g, s, 1), g, s, 2), g, s, 3), g, s, 4);
      && Get(e.counts, 'b') == 1 && Get(e.counts, 'x') == 0
      && |e.cells| == 5
  {
    var e1 := ExactStep(e0, g, s, 0);
    assert Get(e1.counts, 'b') == 1 && Get(e1.counts, 'x') == 0;
    var e2 := ExactStep(e1, g, s, 1);
    assert Get(e2.counts, 'b') == 1 && Get(e2.counts, 'x') == 0;
    var e3 := ExactStep(e2, g, s, 2);
    assert Get(e3.counts, 'b') == 1 && Get(e3.counts, 'x') == 0;
    var e4 := ExactStep(e3, g, s, 3);
    assert Get(e4.counts, 'b') == 1 && Get(e4.counts, 'x') == 0;
  }

  lemma SecondGuessSecondPass(g: string, e: Marks)
    requires g == "xbxxx" && |e.cells| == 5 && Get(e.counts, 'b') == 1 && Get(e.counts, 'x') == 0
    ensures var r := PresentPass(g, e, 5); 'b' in r.keys && r.keys['b'] == Yellow
  {
    assert PresentPass(g, e, 0) == e;
    var p1 := PresentPass(g, e, 1);
    assert Get(p1.counts, 'b') == 1 && Get(p1.counts, 'x') == 0;
    var p2 := PresentPass(g, e, 2);
    assert Get(p2.counts, 'x') == 0 && 'b' in p2.keys && p2.keys['b'] == Yellow;
    var p3 := PresentPass(g, e, 3);
    assert p3 == p2;
    var p4 := PresentPass(g, e, 4);
    assert p4 == p2;
  }

  /**
   * Secret "bcdef": the guess "bxxxx" makes the `b` key green, and the
   * following guess "xbxxx" turns it yellow, so keyboard colours are not
   * monotone.
   */
  lemma KeyDowngraded()
    ensures var before := Feedback("bxxxx", "bcdef", [Unset, Unset, Unset, Unset, Unset], map[]).keys;
      && 'b' in before && before['b'] == Green
      && var after := Feedback("xbxxx", "bcdef", [Unset, Unset, Unset, Unset, Unset], before).keys;
         'b' in after && after['b'] == Yellow
  {
    var e := ExactPass("bxxxx", "bcdef", [Unset, Unset, Unset, Unset, Unset], map[], 5);
    FirstGuessFirstPass("bxxxx", "bcdef", [Unset, Unset, Unset, Unset, Unset]);
    NothingLeftForSecondPass("bxxxx", e, 5);
    var before := e.keys;
    SecondGuessFirstPass("xbxxx", "bcdef", [Unset, Unset, Unset, Unset, Unset], before);
    SecondGuessSecondPass("xbxxx", ExactPass("xbxxx", "bcdef", [Unset, Unset, Unset, Unset, Unset], before, 5));
  }
}

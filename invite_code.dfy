/**
 * Project invite codes: eight symbols from a 32-symbol alphabet, written as
 * two groups of four joined by a dash. The random draw of each symbol is an
 * input: `picks[i]` is the index `floor(random * 32)` drawn for symbol `i`.
 */
module InviteCode {
  import opened Wrappers

  /** The symbols a code is made of: capital letters and digits without 0, O, 1 and I. */
  const Alphabet: string := "ABCDEFGHJKLMNPQRSTUVWXYZ23456789"

  /** Number of symbols drawn, and the position before which the dash goes. */
  const Symbols: nat := 8
  const DashAt: nat := 4

  /** Eight draws, each an index into the alphabet. */
  predicate ValidPicks(picks: seq<nat>) {
    |picks| == Symbols && forall i :: 0 <= i < |picks| ==> picks[i] < |Alphabet|
  }

  /** The symbols `picks` select, in order. */
  function Spell(picks: seq<nat>): (s: string)
    requires forall i :: 0 <= i < |picks| ==> picks[i] < |Alphabet|
    ensures |s| == |picks|
  {
    seq(|picks|, i requires 0 <= i < |picks| => Alphabet[picks[i]])
  }

  /** The code for a run of draws: the first four symbols, a dash, the last four. */
  function Render(picks: seq<nat>): string
    requires ValidPicks(picks)
  {
    Spell(picks[..DashAt]) + "-" + Spell(picks[DashAt..])
  }

  /** generateInviteCode: eight rounds, each appending one drawn symbol, with the dash added before round 4. */
  method GenerateInviteCode(picks: seq<nat>) returns (code: string)
    requires ValidPicks(picks)
    ensures code == Render(picks)
  {
    code := "";
    for i := 0 to Symbols
      invariant i <= DashAt ==> code == Spell(picks[..i])
      invariant i > DashAt ==> code == Spell(picks[..DashAt]) + "-" + Spell(picks[DashAt..i])
    {
      if i == DashAt {
        code := code + "-";
      }
      code := code + [Alphabet[picks[i]]];
    }
    assert picks[DashAt..Symbols] == picks[DashAt..];
  }

  /** The alphabet as four runs, each in ascending character order, split where I and O were dropped. */
  const Front: string := "ABCDEFGH"
  const Middle: string := "JKLMN"
  const Back: string := "PQRSTUVWXYZ"
  const Digits: string := "23456789"

  predicate Ascending(s: string) {
    |s| < 2 || (s[0] < s[1] && Ascending(s[1..]))
  }

  ghost predicate Increasing(s: string) {
    forall i, j :: 0 <= i < j < |s| ==> s[i] < s[j]
  }

  lemma {:induction false} AscendingIncreasing(s: string)
    requires Ascending(s)
    ensures Increasing(s)
    decreases |s|
  {
    if |s| >= 2 {
      AscendingIncreasing(s[1..]);
      forall i, j | 0 <= i < j < |s|
        ensures s[i] < s[j]
      {
        if i > 0 {
          assert s[i] == s[1..][i - 1] && s[j] == s[1..][j - 1];
        } else if j > 1 {
          assert s[1] == s[1..][0] && s[j] == s[1..][j - 1];
        }
      }
    }
  }

  lemma {:induction false} AscendingJoin(s: string, t: string)
    requires Ascending(s) && Ascending(t) && s != [] && t != [] && s[|s| - 1] < t[0]
    ensures Ascending(s + t)
    decreases |s|
  {
    if |s| == 1 {
      assert (s + t)[1..] == t;
    } else {
      AscendingJoin(s[1..], t);
      assert (s + t)[1..] == s[1..] + t;
    }
  }

  lemma AlphabetRuns()
    ensures Alphabet == Front + Middle + Back + Digits
  {
  }

  lemma LetterRunsAscend()
    ensures Ascending(Front) && Ascending(Middle)
  {
  }

  lemma BackRunAscends()
    ensures Ascending(Back)
  {
  }

  lemma DigitsAscend()
    ensures Ascending(Digits)
  {
  }

  lemma RunsIncrease()
    ensures Increasing(Front + Middle + Back) && Increasing(Digits)
  {
    LetterRunsAscend();
    BackRunAscends();
    DigitsAscend();
    AscendingJoin(Front, Middle);
    AscendingJoin(Front + Middle, Back);
    AscendingIncreasing(Front + Middle + Back);
    AscendingIncreasing(Digits);
  }

  /** Thirty-two symbols, none listed twice. */
  lemma AlphabetDistinct()
    ensures |Alphabet| == 32
    ensures forall i, j :: 0 <= i < j < |Alphabet| ==> Alphabet[i] != Alphabet[j]
  {
    var letters := Front + Middle + Back;
    AlphabetRuns();
    RunsIncrease();
    assert letters[0] == 'A' && Digits[7] == '9';
    forall i, j | 0 <= i < j < |Alphabet|
      ensures Alphabet[i] != Alphabet[j]
    {
      if i < 24 <= j {
        assert Alphabet[i] == letters[i] && Alphabet[j] == Digits[j - 24];
        assert letters[0] <= letters[i] && Digits[j - 24] <= Digits[7];
      } else if j < 24 {
        assert Alphabet[i] == letters[i] && Alphabet[j] == letters[j];
      } else {
        assert Alphabet[i] == Digits[i - 24] && Alphabet[j] == Digits[j - 24];
      }
    }
  }

  /** A character strictly between two neighbours of an increasing string does not occur in it. */
  lemma Gap(s: string, k: nat, c: char)
    requires Increasing(s) && k + 1 < |s| && s[k] < c < s[k + 1]
    ensures c !in s
  {
  }

  /** Every character of a non-empty increasing string lies between its first and last. */
  lemma Bounds(s: string)
    requires Increasing(s) && s != []
    ensures forall c :: c in s ==> s[0] <= c <= s[|s| - 1]
  {
  }

  /** None of the look-alikes 0, O, 1, I, nor the dash, is a symbol. */
  lemma AlphabetUnambiguous()
    ensures '0' !in Alphabet && 'O' !in Alphabet && '1' !in Alphabet && 'I' !in Alphabet && '-' !in Alphabet
  {
    var letters := Front + Middle + Back;
    AlphabetRuns();
    RunsIncrease();
    assert letters[0] == 'A' && letters[7] == 'H' && letters[8] == 'J' && letters[12] == 'N' && letters[13] == 'P';
    assert Digits[0] == '2';
    Bounds(letters);
    Bounds(Digits);
    Gap(letters, 7, 'I');
    Gap(letters, 12, 'O');
    assert forall c :: c in Alphabet ==> c in letters || c in Digits;
  }

  /** Every code has nine characters, the dash at index 4 and drawn symbols everywhere else. */
  lemma RenderLayout(picks: seq<nat>)
    requires ValidPicks(picks)
    ensures var code := Render(picks);
      && |code| == Symbols + 1
      && code[DashAt] == '-'
      && (forall i :: 0 <= i < DashAt ==> code[i] == Alphabet[picks[i]])
      && (forall i :: DashAt <= i < Symbols ==> code[i + 1] == Alphabet[picks[i]])
      && (forall i :: 0 <= i < |code| && i != DashAt ==> code[i] in Alphabet)
      && '0' !in code && 'O' !in code && '1' !in code && 'I' !in code
  {
    AlphabetUnambiguous();
    var code := Render(picks);
    forall i | 0 <= i < |code| && i != DashAt
      ensures code[i] in Alphabet
    {
      if i < DashAt {
        assert code[i] == Alphabet[picks[i]];
      } else {
        assert code[i] == Alphabet[picks[i - 1]];
      }
    }
  }

  /** Position of `c` in `s`, if it occurs. */
  function IndexOf(s: string, c: char): (r: Option<nat>)
    ensures r.Some? ==> r.value < |s| && s[r.value] == c && c !in s[..r.value]
    ensures r.None? ==> c !in s
  {
    if s == [] then None
    else if s[0] == c then Some(0)
    else match IndexOf(s[1..], c)
      case None => None
      case Some(k) =>
        assert s[1..][..k] == s[1..k + 1];
        Some(k + 1)
  }

  /** The draws a run of symbols came from, if every one is a symbol. */
  function Unspell(s: string): (picks: Option<seq<nat>>)
    ensures picks.Some? ==> |picks.value| == |s|
  {
    if s == [] then Some([])
    else match (IndexOf(Alphabet, s[0]), Unspell(s[1..]))
      case (Some(k), Some(rest)) => Some([k] + rest)
      case _ => None
  }

  /** Read a code back into its draws: nine characters, the dash at index 4, symbols elsewhere. */
  function Parse(code: string): Option<seq<nat>> {
    if |code| == Symbols + 1 && code[DashAt] == '-' then
      match (Unspell(code[..DashAt]), Unspell(code[DashAt + 1..]))
      case (Some(a), Some(b)) => Some(a + b)
      case _ => None
    else None
  }

  lemma {:induction false} UnspellSpell(picks: seq<nat>)
    requires forall i :: 0 <= i < |picks| ==> picks[i] < |Alphabet|
    ensures Unspell(Spell(picks)) == Some(picks)
    decreases |picks|
  {
    if picks != [] {
      AlphabetDistinct();
      var s := Spell(picks);
      assert s[1..] == Spell(picks[1..]);
      UnspellSpell(picks[1..]);
      var k := IndexOf(Alphabet, s[0]);
      assert k.Some? && Alphabet[k.value] == Alphabet[picks[0]];
      assert k.value == picks[0];
      assert [picks[0]] + picks[1..] == picks;
    }
  }

  lemma {:induction false} SpellUnspell(s: string)
    requires Unspell(s).Some?
    ensures var picks := Unspell(s).value;
      && (forall i :: 0 <= i < |picks| ==> picks[i] < |Alphabet|)
      && Spell(picks) == s
    decreases |s|
  {
    if s != [] {
      SpellUnspell(s[1..]);
      var picks := Unspell(s).value;
      assert picks[1..] == Unspell(s[1..]).value;
    }
  }

  /** Reading a generated code gives back the draws it was made from. */
  lemma ParseRender(picks: seq<nat>)
    requires ValidPicks(picks)
    ensures Parse(Render(picks)) == Some(picks)
  {
    var code := Render(picks);
    UnspellSpell(picks[..DashAt]);
    UnspellSpell(picks[DashAt..]);
    assert code[..DashAt] == Spell(picks[..DashAt]);
    assert code[DashAt + 1..] == Spell(picks[DashAt..]);
    assert picks[..DashAt] + picks[DashAt..] == picks;
  }

  /** Every string that reads as a code is the code of the draws it reads as. */
  lemma RenderParse(code: string)
    requires Parse(code).Some?
    ensures ValidPicks(Parse(code).value) && Render(Parse(code).value) == code
  {
    var a := Unspell(code[..DashAt]).value;
    var b := Unspell(code[DashAt + 1..]).value;
    SpellUnspell(code[..DashAt]);
    SpellUnspell(code[DashAt + 1..]);
    var picks := a + b;
    assert picks[..DashAt] == a && picks[DashAt..] == b;
    assert code == code[..DashAt] + "-" + code[DashAt + 1..];
  }
}

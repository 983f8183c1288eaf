/**
 * The number-word parser of value canonicalisation (src/canonicalValue.ts), on tokens.
 */
module NumberWords {
  import opened Options

  /** Lower-case tokens: the keys of the two word tables, and everything else. */
  datatype Word =
    | Zero | One | Two | Three | Four | Five | Six | Seven | Eight | Nine
    | Ten | Eleven | Twelve | Thirteen | Fourteen | Fifteen | Sixteen | Seventeen | Eighteen | Nineteen
    | Twenty | Thirty | Forty | Fifty | Sixty | Seventy | Eighty | Ninety
    | Hundred | Thousand | Million | Billion
    | Other(text: string)

  /** NUMBER_WORDS_SMALL */
  function SmallValue(w: Word): Option<nat> {
    match w
    case Zero => Some(0) case One => Some(1) case Two => Some(2) case Three => Some(3) case Four => Some(4)
    case Five => Some(5) case Six => Some(6) case Seven => Some(7) case Eight => Some(8) case Nine => Some(9)
    case Ten => Some(10) case Eleven => Some(11) case Twelve => Some(12) case Thirteen => Some(13)
    case Fourteen => Some(14) case Fifteen => Some(15) case Sixteen => Some(16) case Seventeen => Some(17)
    case Eighteen => Some(18) case Nineteen => Some(19)
    case Twenty => Some(20) case Thirty => Some(30) case Forty => Some(40) case Fifty => Some(50)
    case Sixty => Some(60) case Seventy => Some(70) case Eighty => Some(80) case Ninety => Some(90)
    case _ => None
  }

  /** NUMBER_WORDS_MAGNITUDE without "hundred", which the loop handles first. */
  function MagnitudeValue(w: Word): Option<nat> {
    match w
    case Thousand => Some(1_000)
    case Million => Some(1_000_000)
    case Billion => Some(1_000_000_000)
    case _ => None
  }

  datatype Parse = Parse(total: nat, current: nat, found: bool)

  /** `current || 1` */
  function OrOne(n: nat): nat {
    if n == 0 then 1 else n
  }

  function Next(p: Parse, w: Word): Parse {
    if SmallValue(w).Some? then Parse(p.total, p.current + SmallValue(w).value, true)
    else if w == Hundred then Parse(p.total, OrOne(p.current) * 100, true)
    else if MagnitudeValue(w).Some? then Parse(p.total + OrOne(p.current) * MagnitudeValue(w).value, 0, true)
    else p
  }

  function ParseFrom(p: Parse, words: seq<Word>): Parse
    decreases |words|
  {
    if words == [] then p else ParseFrom(Next(p, words[0]), words[1..])
  }

  const START: Parse := Parse(0, 0, false)

  function Result(p: Parse): Option<nat> {
    if p.found then Some(p.total + p.current) else None
  }

  // ---------------------------------------------------------------------------------------------
  // English spelling
  // ---------------------------------------------------------------------------------------------

  function BelowTwenty(n: nat): Word
    requires n < 20
  {
    [Zero, One, Two, Three, Four, Five, Six, Seven, Eight, Nine, Ten, Eleven, Twelve, Thirteen, Fourteen,
     Fifteen, Sixteen, Seventeen, Eighteen, Nineteen][n]
  }

  function Tens(n: nat): Word
    requires 2 <= n < 10
  {
    [Twenty, Thirty, Forty, Fifty, Sixty, Seventy, Eighty, Ninety][n - 2]
  }

  function SpellBelow100(n: nat): seq<Word>
    requires n < 100
  {
    if n == 0 then []
    else if n < 20 then [BelowTwenty(n)]
    else if n % 10 == 0 then [Tens(n / 10)]
    else [Tens(n / 10), BelowTwenty(n % 10)]
  }

  function SpellBelow1000(n: nat): seq<Word>
    requires n < 1000
  {
    if n < 100 then SpellBelow100(n) else [BelowTwenty(n / 100), Hundred] + SpellBelow100(n % 100)
  }

  function Group(n: nat, magnitude: Word): seq<Word>
    requires n < 1000
  {
    if n == 0 then [] else SpellBelow1000(n) + [magnitude]
  }

  /** Standard English, billions down to units, empty groups left out. */
  function Spell(n: nat): seq<Word>
    requires n < 1_000_000_000_000
  {
    if n == 0 then [Zero]
    else Group(n / 1_000_000_000, Billion) + Group(n / 1_000_000 % 1000, Million)
         + Group(n / 1_000 % 1000, Thousand) + SpellBelow1000(n % 1000)
  }

  /**
   * Which "one" a speaker leaves out, or says as "a": that of a group's hundred, and that of a group
   * which is a bare magnitude.
   */
  datatype Omit = Omit(hundred: bool, magnitude: bool)

  const NOTHING: Omit := Omit(false, false)

  function LooseBelow1000(n: nat, omit: Omit): seq<Word>
    requires n < 1000
  {
    if omit.hundred && n / 100 == 1 then [Hundred] + SpellBelow100(n % 100) else SpellBelow1000(n)
  }

  function LooseGroup(n: nat, magnitude: Word, omit: Omit): seq<Word>
    requires n < 1000
  {
    if n == 0 then [] else if omit.magnitude && n == 1 then [magnitude] else LooseBelow1000(n, omit) + [magnitude]
  }

  /** The spellings of n in which some of these ones are left out; `omit` says which, billions first. */
  function LooseSpell(n: nat, omit: (Omit, Omit, Omit, Omit)): seq<Word>
    requires n < 1_000_000_000_000
  {
    if n == 0 then [Zero]
    else LooseGroup(n / 1_000_000_000, Billion, omit.0) + LooseGroup(n / 1_000_000 % 1000, Million, omit.1)
         + LooseGroup(n / 1_000 % 1000, Thousand, omit.2) + LooseBelow1000(n % 1000, omit.3)
  }

  lemma NothingOmitted(n: nat)
    requires n < 1_000_000_000_000
    ensures LooseSpell(n, (NOTHING, NOTHING, NOTHING, NOTHING)) == Spell(n)
  {
  }

  /** The number words among the tokens. */
  function NumberWordsOf(words: seq<Word>): seq<Word> {
    if words == [] then []
    else if words[0].Other? then NumberWordsOf(words[1..])
    else [words[0]] + NumberWordsOf(words[1..])
  }

  // ---------------------------------------------------------------------------------------------
  // The parser inverts the spelling
  // ---------------------------------------------------------------------------------------------

  lemma {:induction false} ParseAppend(p: Parse, a: seq<Word>, b: seq<Word>)
    ensures ParseFrom(p, a + b) == ParseFrom(ParseFrom(p, a), b)
    decreases |a|
  {
    if a == [] {
      assert a + b == b;
    } else {
      assert (a + b)[1..] == a[1..] + b;
      ParseAppend(Next(p, a[0]), a[1..], b);
    }
  }

  lemma {:induction false} ParseIgnoresOthers(p: Parse, words: seq<Word>)
    ensures ParseFrom(p, words) == ParseFrom(p, NumberWordsOf(words))
    decreases |words|
  {
    if words != [] {
      ParseIgnoresOthers(Next(p, words[0]), words[1..]);
      if !words[0].Other? {
        assert NumberWordsOf(words)[1..] == NumberWordsOf(words[1..]);
      }
    }
  }

  lemma ParseOne(p: Parse, w: Word)
    ensures ParseFrom(p, [w]) == Next(p, w)
  {
    assert [w][1..] == [];
  }

  lemma SmallWords(n: nat)
    ensures n < 20 ==> SmallValue(BelowTwenty(n)) == Some(n)
    ensures 2 <= n < 10 ==> SmallValue(Tens(n)) == Some(10 * n)
  {
  }

  lemma ParseBelow100(p: Parse, n: nat)
    requires n < 100
    ensures ParseFrom(p, SpellBelow100(n)) == if n == 0 then p else Parse(p.total, p.current + n, true)
  {
    SmallWords(n);
    SmallWords(n / 10);
    SmallWords(n % 10);
    if n >= 20 && n % 10 != 0 {
      assert SpellBelow100(n) == [Tens(n / 10)] + [BelowTwenty(n % 10)];
      ParseAppend(p, [Tens(n / 10)], [BelowTwenty(n % 10)]);
      ParseOne(p, Tens(n / 10));
      ParseOne(Next(p, Tens(n / 10)), BelowTwenty(n % 10));
    } else if n > 0 {
      ParseOne(p, SpellBelow100(n)[0]);
    }
  }

  lemma ParseFirst(p: Parse, w: Word, rest: seq<Word>)
    ensures ParseFrom(p, [w] + rest) == ParseFrom(Next(p, w), rest)
  {
    ParseAppend(p, [w], rest);
    ParseOne(p, w);
  }

  lemma ParseHundreds(total: nat, found: bool, d: nat, rest: seq<Word>)
    requires 0 < d < 10
    ensures ParseFrom(Parse(total, 0, found), [BelowTwenty(d), Hundred] + rest)
            == ParseFrom(Parse(total, 100 * d, true), rest)
  {
    var w := BelowTwenty(d);
    SmallWords(d);
    assert [w, Hundred] + rest == [w] + ([Hundred] + rest);
    ParseFirst(Parse(total, 0, found), w, [Hundred] + rest);
    ParseFirst(Parse(total, d, true), Hundred, rest);
  }

  lemma ParseBareHundred(total: nat, found: bool, m: nat)
    requires m < 100
    ensures ParseFrom(Parse(total, 0, found), [Hundred] + SpellBelow100(m)) == Parse(total, 100 + m, true)
  {
    ParseFirst(Parse(total, 0, found), Hundred, SpellBelow100(m));
    assert Next(Parse(total, 0, found), Hundred) == Parse(total, 100, true);
    ParseBelow100(Parse(total, 100, true), m);
  }

  lemma ParseBelow1000(total: nat, found: bool, n: nat, omit: Omit)
    requires n < 1000
    ensures ParseFrom(Parse(total, 0, found), LooseBelow1000(n, omit)) == Parse(total, n, found || n > 0)
  {
    if omit.hundred && n / 100 == 1 {
      ParseBareHundred(total, found, n % 100);
    } else if n < 100 {
      ParseBelow100(Parse(total, 0, found), n);
    } else {
      ParseHundreds(total, found, n / 100, SpellBelow100(n % 100));
      ParseBelow100(Parse(total, 100 * (n / 100), true), n % 100);
    }
  }

  /** Read between two groups, the words add v to the total and leave the parser between two groups. */
  ghost predicate Adds(words: seq<Word>, v: nat) {
    forall total: nat, found: bool ::
      ParseFrom(Parse(total, 0, found), words) == Parse(total + v, 0, found || v > 0)
  }

  /** A group of n and a magnitude is worth their product v. */
  lemma GroupAdds(n: nat, magnitude: Word, value: nat, v: nat, omit: Omit)
    requires n < 1000 && MagnitudeValue(magnitude) == Some(value) && v == n * value
    ensures Adds(LooseGroup(n, magnitude, omit), v)
  {
    forall total: nat, found: bool
      ensures ParseFrom(Parse(total, 0, found), LooseGroup(n, magnitude, omit)) == Parse(total + v, 0, found || v > 0)
    {
      if omit.magnitude && n == 1 {
        ParseOne(Parse(total, 0, found), magnitude);
      } else if n > 0 {
        GroupParsed(total, found, n, magnitude, value, v, omit);
      }
    }
  }

  lemma GroupParsed(total: nat, found: bool, n: nat, magnitude: Word, value: nat, v: nat, omit: Omit)
    requires 0 < n < 1000 && MagnitudeValue(magnitude) == Some(value) && v == n * value
    ensures ParseFrom(Parse(total, 0, found), LooseBelow1000(n, omit) + [magnitude]) == Parse(total + v, 0, true)
    ensures v > 0
  {
    ParseBelow1000(total, found, n, omit);
    ParseThen(Parse(total, 0, found), LooseBelow1000(n, omit), Parse(total, n, true), magnitude);
    MagnitudeEndsGroup(total, n, magnitude, value, v);
  }

  lemma ParseThen(p: Parse, text: seq<Word>, q: Parse, w: Word)
    requires ParseFrom(p, text) == q
    ensures ParseFrom(p, text + [w]) == Next(q, w)
  {
    ParseAppend(p, text, [w]);
    ParseOne(q, w);
  }

  lemma MagnitudeEndsGroup(total: nat, n: nat, magnitude: Word, value: nat, v: nat)
    requires n > 0 && MagnitudeValue(magnitude) == Some(value) && v == n * value
    ensures Next(Parse(total, n, true), magnitude) == Parse(total + v, 0, true)
    ensures v > 0
  {
  }

  lemma AddsCompose(a: seq<Word>, v: nat, b: seq<Word>, w: nat)
    requires Adds(a, v) && Adds(b, w)
    ensures Adds(a + b, v + w)
  {
    forall total: nat, found: bool
      ensures ParseFrom(Parse(total, 0, found), a + b) == Parse(total + (v + w), 0, found || v + w > 0)
    {
      var q := ParseFrom(Parse(total, 0, found), a);
      ParseAppend(Parse(total, 0, found), a, b);
      assert q == Parse(total + v, 0, found || v > 0);
      assert ParseFrom(q, b) == Parse(total + v + w, 0, found || v > 0 || w > 0);
    }
  }

  lemma UnitsAfter(text: seq<Word>, v: nat, u: nat, omit: Omit)
    requires Adds(text, v) && u < 1000 && v + u > 0
    ensures Result(ParseFrom(START, text + LooseBelow1000(u, omit))) == Some(v + u)
  {
    ParseAppend(START, text, LooseBelow1000(u, omit));
    ParseBelow1000(v, v > 0, u, omit);
  }

  lemma GroupsAddUp(n: nat)
    requires n < 1_000_000_000_000
    ensures n / 1_000_000_000 < 1000
    ensures n == n / 1_000_000_000 * 1_000_000_000 + n / 1_000_000 % 1000 * 1_000_000 + n / 1_000 % 1000 * 1_000
            + n % 1000
  {
    assert n / 1_000_000 / 1000 == n / 1_000_000_000;
    assert n / 1_000 / 1000 == n / 1_000_000;
  }

  /** The three groups above the units. */
  function Thousands(b: nat, m: nat, t: nat, omit: (Omit, Omit, Omit, Omit)): seq<Word>
    requires b < 1000 && m < 1000 && t < 1000
  {
    LooseGroup(b, Billion, omit.0) + LooseGroup(m, Million, omit.1) + LooseGroup(t, Thousand, omit.2)
  }

  lemma ThousandsAdd(b: nat, m: nat, t: nat, omit: (Omit, Omit, Omit, Omit))
    requires b < 1000 && m < 1000 && t < 1000
    ensures Adds(Thousands(b, m, t, omit), b * 1_000_000_000 + m * 1_000_000 + t * 1_000)
  {
    var wb, wm, wt := LooseGroup(b, Billion, omit.0), LooseGroup(m, Million, omit.1), LooseGroup(t, Thousand, omit.2);
    GroupAdds(b, Billion, 1_000_000_000, b * 1_000_000_000, omit.0);
    GroupAdds(m, Million, 1_000_000, m * 1_000_000, omit.1);
    GroupAdds(t, Thousand, 1_000, t * 1_000, omit.2);
    AddsCompose(wb, b * 1_000_000_000, wm, m * 1_000_000);
    AddsCompose(wb + wm, b * 1_000_000_000 + m * 1_000_000, wt, t * 1_000);
  }

  lemma ParseGroups(b: nat, m: nat, t: nat, u: nat, n: nat, omit: (Omit, Omit, Omit, Omit))
    requires b < 1000 && m < 1000 && t < 1000 && u < 1000
    requires n == b * 1_000_000_000 + m * 1_000_000 + t * 1_000 + u && n > 0
    ensures Result(ParseFrom(START, Thousands(b, m, t, omit) + LooseBelow1000(u, omit.3))) == Some(n)
  {
    ThousandsAdd(b, m, t, omit);
    UnitsAfter(Thousands(b, m, t, omit), b * 1_000_000_000 + m * 1_000_000 + t * 1_000, u, omit.3);
  }

  lemma ParseSpelled(n: nat, omit: (Omit, Omit, Omit, Omit))
    requires n < 1_000_000_000_000
    ensures Result(ParseFrom(START, LooseSpell(n, omit))) == Some(n)
  {
    if n == 0 {
      ParseOne(START, Zero);
    } else {
      GroupsAddUp(n);
      ParseGroups(n / 1_000_000_000, n / 1_000_000 % 1000, n / 1_000 % 1000, n % 1000, n, omit);
    }
  }

  /**
   * Whatever other words stand between the number words, and whichever ones are left out: "one hundred
   * and five thousand euros" and "a hundred and five thousand" are both 105000.
   */
  lemma SpellingIsInverted(words: seq<Word>, n: nat, omit: (Omit, Omit, Omit, Omit))
    requires n < 1_000_000_000_000 && NumberWordsOf(words) == LooseSpell(n, omit)
    ensures Result(ParseFrom(START, words)) == Some(n)
  {
    ParseIgnoresOthers(START, words);
    ParseSpelled(n, omit);
  }

  /** Different numbers are spelled differently, whichever ones are left out. */
  lemma SpellInjective(m: nat, omit: (Omit, Omit, Omit, Omit), n: nat, omit': (Omit, Omit, Omit, Omit))
    requires m < 1_000_000_000_000 && n < 1_000_000_000_000 && LooseSpell(m, omit) == LooseSpell(n, omit')
    ensures m == n
  {
    ParseSpelled(m, omit);
    ParseSpelled(n, omit');
  }

  /** The bound is sharp: a billion of thousands is read as a thousand plus a billion. */
  lemma ThousandBillionIsMisread()
    ensures Result(ParseFrom(START, [One, Thousand, Billion])) == Some(1_000_001_000)
  {
    ParseOne(START, One);
    ParseThen(START, [One], Parse(0, 1, true), Thousand);
    ParseThen(START, [One] + [Thousand], Parse(1_000, 0, true), Billion);
    assert [One] + [Thousand] + [Billion] == [One, Thousand, Billion];
  }

  lemma {:induction false} FoundExactly(p: Parse, words: seq<Word>)
    ensures ParseFrom(p, words).found <==> p.found || NumberWordsOf(words) != []
    decreases |words|
  {
    if words != [] {
      FoundExactly(Next(p, words[0]), words[1..]);
    }
  }

  lemma AllSpellingsInverted(words: seq<Word>)
    ensures forall n, omit :: 0 <= n < 1_000_000_000_000 && NumberWordsOf(words) == LooseSpell(n, omit) ==>
              Result(ParseFrom(START, words)) == Some(n)
  {
    forall n, omit | 0 <= n < 1_000_000_000_000 && NumberWordsOf(words) == LooseSpell(n, omit)
      ensures Result(ParseFrom(START, words)) == Some(n)
    {
      SpellingIsInverted(words, n, omit);
    }
  }

  method WordsToNumber(tokens: seq<Word>) returns (r: Option<nat>)
    ensures r == Result(ParseFrom(START, tokens))
    ensures r == None <==> NumberWordsOf(tokens) == []
    ensures forall n, omit :: 0 <= n < 1_000_000_000_000 && NumberWordsOf(tokens) == LooseSpell(n, omit) ==>
              r == Some(n)
  {
    var total: nat, current: nat, found := 0, 0, false;
    for i := 0 to |tokens|
      invariant ParseFrom(START, tokens) == ParseFrom(Parse(total, current, found), tokens[i..])
    {
      var t := tokens[i];
      assert tokens[i..][0] == t && tokens[i..][1..] == tokens[i + 1..];
      ghost var before := Parse(total, current, found);
      if SmallValue(t).Some? {
        current := current + SmallValue(t).value;
        found := true;
      } else if t == Hundred {
        current := (if current != 0 then current else 1) * 100;
        found := true;
      } else if MagnitudeValue(t).Some? {
        current := (if current != 0 then current else 1) * MagnitudeValue(t).value;
        total := total + current;
        current := 0;
        found := true;
      }
      assert Parse(total, current, found) == Next(before, t);
    }
    r := if !found then None else Some(total + current);
    FoundExactly(START, tokens);
    AllSpellingsInverted(tokens);
  }
}

/** The fee receipt's amount in words (Indian numbering: Crore, Lakh,
    Thousand, Hundred) and its total.

    The words are specified as a list of `Word` tokens (`NumberWords`), each
    spelt by the receipt's `ones` and `tens` tables. `ConvertHundreds` and
    `NumberToWords` build the text step by step as the receipt does, and are
    proved to produce those words joined by single spaces. `WordsToNumber`
    reads a word list back as a number, and `NumberWordsRoundTrip` proves
    that it undoes `NumberWords`. */
module FeeReceipt {
  import opened Common

  const Ones: seq<string> := [
    "", "One", "Two", "Three", "Four", "Five", "Six", "Seven", "Eight", "Nine",
    "Ten", "Eleven", "Twelve", "Thirteen", "Fourteen", "Fifteen", "Sixteen",
    "Seventeen", "Eighteen", "Nineteen"
  ]

  const Tens: seq<string> := [
    "", "", "Twenty", "Thirty", "Forty", "Fifty", "Sixty", "Seventy", "Eighty", "Ninety"
  ]

  const CroreValue: int := 10000000
  const LakhValue: int := 100000
  const ThousandValue: int := 1000

  /** `convertHundreds(n)` indexes `ones` with `n / 100`, which stays inside
      the table for n < 2000; the crore group of `numberToWords` is
      `num / 10^7`, so magnitudes below 2 * 10^10 keep every lookup inside
      the tables. */
  const WordsLimit: int := 20000000000

  // ---------------------------------------------------------------------
  // Words

  /** A word of the receipt's amount line. `OnesWord(i)` is `ones[i]`,
      `TensWord(i)` is `tens[i]`. */
  datatype Word =
    | OnesWord(index: nat)
    | TensWord(index: nat)
    | HundredWord | CroreWord | LakhWord | ThousandWord
    | NegativeWord | ZeroWord
    | RupeesWord | AndWord | PaiseWord | OnlyWord

  function Spelling(w: Word): string {
    match w
    case OnesWord(i) => if i < |Ones| then Ones[i] else ""
    case TensWord(i) => if i < |Tens| then Tens[i] else ""
    case HundredWord => "Hundred"
    case CroreWord => "Crore"
    case LakhWord => "Lakh"
    case ThousandWord => "Thousand"
    case NegativeWord => "Negative"
    case ZeroWord => "Zero"
    case RupeesWord => "Rupees"
    case AndWord => "and"
    case PaiseWord => "Paise"
    case OnlyWord => "Only"
  }

  /** A word the tables can spell: a non-empty entry of `ones` or `tens`,
      or one of the fixed words. */
  predicate Spellable(w: Word) {
    match w
    case OnesWord(i) => 1 <= i < 20
    case TensWord(i) => 2 <= i < 10
    case _ => true
  }

  /** A word of a positive number: a table entry or a unit word. */
  predicate IsNumberWord(w: Word) {
    match w
    case OnesWord(i) => 1 <= i < 20
    case TensWord(i) => 2 <= i < 10
    case HundredWord => true
    case CroreWord => true
    case LakhWord => true
    case ThousandWord => true
    case _ => false
  }

  /** The words `convertHundreds(n)` emits: the hundreds digit and
      "Hundred", then a tens word for 20..99, then a units word (which also
      covers ten to nineteen). */
  function HundredsWords(n: nat): seq<Word>
    requires n < 2000
  {
    var m := n % 100;
    var u := if m >= 20 then m % 10 else m;
    (if n >= 100 then [OnesWord(n / 100), HundredWord] else [])
    + (if m >= 20 then [TensWord(m / 10)] else [])
    + (if u > 0 then [OnesWord(u)] else [])
  }

  /** One group of the Indian numbering system: `count` and its unit word,
      or nothing when the group is empty. */
  function GroupWords(count: nat, unit: Word): seq<Word>
    requires count < 2000
  {
    if count == 0 then [] else HundredsWords(count) + [unit]
  }

  /** The words `numberToWords(num)` produces. */
  function NumberWords(num: int): seq<Word>
    requires -WordsLimit < num < WordsLimit
    decreases if num < 0 then 1 else 0
  {
    if num == 0 then [ZeroWord]
    else if num < 0 then [NegativeWord] + NumberWords(-num)
    else if num < 1000 then HundredsWords(num)
    else LargeWords(num)
  }

  /** The Crore, Lakh and Thousand groups of `num`, then its hundreds. */
  function LargeWords(num: int): seq<Word>
    requires 1000 <= num < WordsLimit
  {
    GroupWords(num / CroreValue, CroreWord)
    + GroupWords(num % CroreValue / LakhValue, LakhWord)
    + GroupWords(num % LakhValue / ThousandValue, ThousandWord)
    + HundredsWords(num % 1000)
  }

  // ---------------------------------------------------------------------
  // Words as text

  predicate IsWhitespace(c: char) {
    c == ' ' || c == '\t' || c == '\n' || c == '\r'
  }

  /** A word's text: non-empty, no whitespace inside. */
  predicate IsWordText(s: string) {
    s != [] && forall i :: 0 <= i < |s| ==> !IsWhitespace(s[i])
  }

  /** Every word followed by one space: what `result += word + " "` builds. */
  function Spaced(ws: seq<Word>): string {
    if ws == [] then "" else Spelling(ws[0]) + " " + Spaced(ws[1..])
  }

  /** The words separated by single spaces. */
  function Join(ws: seq<Word>): string {
    if ws == [] then ""
    else if |ws| == 1 then Spelling(ws[0])
    else Spelling(ws[0]) + " " + Join(ws[1..])
  }

  function TrimStart(s: string): string {
    if s != [] && IsWhitespace(s[0]) then TrimStart(s[1..]) else s
  }

  function TrimEnd(s: string): string {
    if s != [] && IsWhitespace(s[|s| - 1]) then TrimEnd(s[..|s| - 1]) else s
  }

  /** `String.prototype.trim` (for the whitespace characters above). */
  function Trim(s: string): string {
    TrimEnd(TrimStart(s))
  }

  /** The text of `numberToWords(num)`. */
  function NumberText(num: int): string
    requires -WordsLimit < num < WordsLimit
  {
    Join(NumberWords(num))
  }

  // ---------------------------------------------------------------------
  // The receipt's conversion, step by step

  /** `convertHundreds`: appends each word and a space to `result`,
      reducing `n` with `%=` as it goes. */
  method ConvertHundreds(n0: nat) returns (result: string)
    requires n0 < 2000
    ensures result == Spaced(HundredsWords(n0))
  {
    var n := n0;
    result := "";
    ghost var words: seq<Word> := [];
    if n >= 100 {
      assert result + (Ones[n / 100] + " Hundred ") == Spaced([OnesWord(n / 100), HundredWord]) by {
        SpacedHundred(n / 100);
      }
      result := result + (Ones[n / 100] + " Hundred ");
      words := [OnesWord(n / 100), HundredWord];
      n := n % 100;
    }
    assert n == n0 % 100;
    if n >= 20 {
      assert result + (Tens[n / 10] + " ") == Spaced(words + [TensWord(n / 10)]) by {
        SpacedAppend(words, [TensWord(n / 10)]);
        SpacedSingle(TensWord(n / 10));
      }
      result := result + (Tens[n / 10] + " ");
      words := words + [TensWord(n / 10)];
      n := n % 10;
    }
    if n > 0 {
      assert result + (Ones[n] + " ") == Spaced(words + [OnesWord(n)]) by {
        SpacedAppend(words, [OnesWord(n)]);
        SpacedSingle(OnesWord(n));
      }
      result := result + (Ones[n] + " ");
      words := words + [OnesWord(n)];
    }
    assert words == HundredsWords(n0);
  }

  lemma SpacedSingle(w: Word)
    ensures Spaced([w]) == Spelling(w) + " "
  {
    assert [w][1..] == [];
  }

  lemma SpacedHundred(k: nat)
    requires k < 20
    ensures Spaced([OnesWord(k), HundredWord]) == Ones[k] + " Hundred "
  {
    assert [OnesWord(k), HundredWord][1..] == [HundredWord];
    assert Spaced([HundredWord]) == "Hundred ";
  }

  /** `numberToWords`: "Zero"; "Negative" and a recursive call for negative
      numbers; the trimmed hundreds below 1000; otherwise the Crore, Lakh
      and Thousand groups and then the hundreds, each appended to `result`
      while `num` is reduced with `%=`, and the whole trimmed. */
  method NumberToWords(num0: int) returns (text: string)
    requires -WordsLimit < num0 < WordsLimit
    ensures text == NumberText(num0)
    decreases if num0 < 0 then 1 else 0
  {
    if num0 == 0 {
      text := "Zero";
      assert text == NumberText(num0);
    } else if num0 < 0 {
      var positive := NumberToWords(-num0);
      NegativeOf(num0, positive);
      text := "Negative " + positive;
    } else if num0 < 1000 {
      var h := ConvertHundreds(num0);
      HundredsWordsShape(num0);
      TrimSpaced(HundredsWords(num0));
      text := Trim(h);
      assert text == NumberText(num0);
    } else {
      var result := AppendGroups(num0);
      TrimmedText(num0);
      text := Trim(result);
      assert text == NumberText(num0);
    }
  }

  /** The body of `numberToWords` for 1000 and above: each non-empty group
      appended to `result` while `num` is reduced with `%=`. */
  method AppendGroups(num0: int) returns (result: string)
    requires 1000 <= num0 < WordsLimit
    ensures result == Spaced(LargeWords(num0))
  {
    var num := num0;
    result := "";
    ghost var words := GroupWords(num / CroreValue, CroreWord);
    if num >= CroreValue {
      var crores := GroupText(num / CroreValue, CroreWord);
      result := result + crores;
      num := num % CroreValue;
    }
    ModOfMod(num0);
    assert num == num0 % CroreValue && result == Spaced(words);
    ghost var group := GroupWords(num / LakhValue, LakhWord);
    SpacedAppend(words, group);
    if num >= LakhValue {
      var lakhs := GroupText(num / LakhValue, LakhWord);
      result := result + lakhs;
      num := num % LakhValue;
    }
    words := words + group;
    assert num == num0 % LakhValue && result == Spaced(words);
    group := GroupWords(num / ThousandValue, ThousandWord);
    SpacedAppend(words, group);
    if num >= ThousandValue {
      var thousands := GroupText(num / ThousandValue, ThousandWord);
      result := result + thousands;
      num := num % ThousandValue;
    }
    words := words + group;
    assert num == num0 % 1000 && result == Spaced(words);
    group := HundredsWords(num);
    SpacedAppend(words, group);
    if num > 0 {
      var rest := ConvertHundreds(num);
      result := result + rest;
    } else {
      HundredsWordsShape(num);
      assert result + Spaced(group) == result;
    }
    words := words + group;
    assert result == Spaced(words);
    assert words == LargeWords(num0);
  }

  /** `convertHundreds(count) + "Crore "` (or "Lakh ", "Thousand "): the
      text one group of `numberToWords` appends. */
  method GroupText(count: nat, unit: Word) returns (text: string)
    requires 0 < count < 2000
    requires unit in {CroreWord, LakhWord, ThousandWord}
    ensures text == Spaced(GroupWords(count, unit))
  {
    var c := ConvertHundreds(count);
    SpacedAppend(HundredsWords(count), [unit]);
    SpacedSingle(unit);
    text := c + (Spelling(unit) + " ");
  }

  lemma NegativeText(num: int)
    requires -WordsLimit < num < 0
    ensures NumberText(num) == "Negative " + NumberText(-num)
  {
    NumberWordsShape(-num);
    JoinCons(NegativeWord, NumberWords(-num));
  }

  /** The text of a negative number, given the text of its magnitude. */
  lemma NegativeOf(num: int, positive: string)
    requires -WordsLimit < num < 0 && positive == NumberText(-num)
    ensures "Negative " + positive == NumberText(num)
  {
    NegativeText(num);
  }

  lemma TrimmedText(num: int)
    requires 1000 <= num < WordsLimit
    ensures Trim(Spaced(LargeWords(num))) == NumberText(num)
  {
    NumberWordsSpellable(num);
    TrimSpaced(NumberWords(num));
  }

  // ---------------------------------------------------------------------
  // Reading words back as a number

  /** Words read so far: the completed groups and the group being read. */
  datatype Reading = Reading(total: int, group: int)

  function ReadWord(st: Reading, w: Word): Reading {
    match w
    case OnesWord(i) => Reading(st.total, st.group + i)
    case TensWord(i) => Reading(st.total, st.group + 10 * i)
    case HundredWord => Reading(st.total, st.group * 100)
    case CroreWord => Reading(st.total + st.group * CroreValue, 0)
    case LakhWord => Reading(st.total + st.group * LakhValue, 0)
    case ThousandWord => Reading(st.total + st.group * ThousandValue, 0)
    case _ => st
  }

  function ReadWords(ws: seq<Word>, st: Reading): Reading {
    if ws == [] then st else ReadWords(ws[1..], ReadWord(st, ws[0]))
  }

  /** The number a list of number words denotes. */
  function WordsToNumber(ws: seq<Word>): int {
    if ws != [] && ws[0] == NegativeWord then -WordsToNumber(ws[1..])
    else var st := ReadWords(ws, Reading(0, 0)); st.total + st.group
  }

  // ---------------------------------------------------------------------
  // Lemmas

  lemma OnesText(i: nat)
    requires 1 <= i < 20
    ensures IsWordText(Ones[i])
  {
    if i < 10 {
      SmallOnesText(i);
    } else {
      TeensText(i);
    }
  }

  lemma SmallOnesText(i: nat)
    requires 1 <= i < 10
    ensures IsWordText(Ones[i])
  {
    if i == 1 { assert IsWordText("One"); }
    else if i == 2 { assert IsWordText("Two"); }
    else if i == 3 { assert IsWordText("Three"); }
    else if i == 4 { assert IsWordText("Four"); }
    else if i == 5 { assert IsWordText("Five"); }
    else if i == 6 { assert IsWordText("Six"); }
    else if i == 7 { assert IsWordText("Seven"); }
    else if i == 8 { assert IsWordText("Eight"); }
    else { assert IsWordText("Nine"); }
  }

  lemma TeensText(i: nat)
    requires 10 <= i < 20
    ensures IsWordText(Ones[i])
  {
    if i == 10 { assert IsWordText("Ten"); }
    else if i == 11 { assert IsWordText("Eleven"); }
    else if i == 12 { assert IsWordText("Twelve"); }
    else if i == 13 { assert IsWordText("Thirteen"); }
    else if i == 14 { assert IsWordText("Fourteen"); }
    else if i == 15 { assert IsWordText("Fifteen"); }
    else if i == 16 { assert IsWordText("Sixteen"); }
    else if i == 17 { assert IsWordText("Seventeen"); }
    else if i == 18 { assert IsWordText("Eighteen"); }
    else { assert IsWordText("Nineteen"); }
  }

  lemma TensText(i: nat)
    requires 2 <= i < 10
    ensures IsWordText(Tens[i])
  {
    if i == 2 { assert IsWordText("Twenty"); }
    else if i == 3 { assert IsWordText("Thirty"); }
    else if i == 4 { assert IsWordText("Forty"); }
    else if i == 5 { assert IsWordText("Fifty"); }
    else if i == 6 { assert IsWordText("Sixty"); }
    else if i == 7 { assert IsWordText("Seventy"); }
    else if i == 8 { assert IsWordText("Eighty"); }
    else { assert IsWordText("Ninety"); }
  }

  /** Every spellable word is spelt as a single word of text. */
  lemma SpellingIsWordText(w: Word)
    requires Spellable(w)
    ensures IsWordText(Spelling(w))
  {
    match w
    case OnesWord(i) => OnesText(i);
    case TensWord(i) => TensText(i);
    case HundredWord => assert IsWordText("Hundred");
    case CroreWord => assert IsWordText("Crore");
    case LakhWord => assert IsWordText("Lakh");
    case ThousandWord => assert IsWordText("Thousand");
    case NegativeWord => assert IsWordText("Negative");
    case ZeroWord => assert IsWordText("Zero");
    case RupeesWord => assert IsWordText("Rupees");
    case AndWord => assert IsWordText("and");
    case PaiseWord => assert IsWordText("Paise");
    case OnlyWord => assert IsWordText("Only");
  }

  /** What `convertHundreds` emits: at least one word exactly when n > 0,
      and only table entries and "Hundred". */
  lemma HundredsWordsShape(n: nat)
    requires n < 2000
    ensures n > 0 <==> HundredsWords(n) != []
    ensures forall w :: w in HundredsWords(n) ==> IsNumberWord(w)
    ensures forall w :: w in HundredsWords(n) ==> !IsUnitWord(w)
  {
  }

  predicate IsUnitWord(w: Word) {
    w == CroreWord || w == LakhWord || w == ThousandWord
  }

  /** The only unit word of a group is its own unit, present exactly when
      the group is not empty. */
  lemma UnitsOfGroup(count: nat, unit: Word)
    requires count < 2000 && IsUnitWord(unit)
    ensures forall w :: IsUnitWord(w) ==> (w in GroupWords(count, unit) <==> w == unit && count > 0)
  {
    HundredsWordsShape(count);
  }

  lemma GroupWordsShape(count: nat, unit: Word)
    requires count < 2000 && unit in {CroreWord, LakhWord, ThousandWord}
    ensures count > 0 <==> GroupWords(count, unit) != []
    ensures forall w :: w in GroupWords(count, unit) ==> IsNumberWord(w)
  {
    HundredsWordsShape(count);
  }

  /** The words of a positive number are number words, and there is at
      least one. */
  lemma PositiveWordsShape(num: int)
    requires 0 < num < WordsLimit
    ensures NumberWords(num) != []
    ensures forall w :: w in NumberWords(num) ==> IsNumberWord(w)
  {
    if num < 1000 {
      HundredsWordsShape(num);
    } else {
      var c, l, t, h := num / CroreValue, num % CroreValue / LakhValue,
                        num % LakhValue / ThousandValue, num % 1000;
      GroupWordsShape(c, CroreWord);
      GroupWordsShape(l, LakhWord);
      GroupWordsShape(t, ThousandWord);
      HundredsWordsShape(h);
      assert c > 0 || l > 0 || t > 0;
    }
  }

  /** `NumberWords(num)` is never empty and every word in it can be spelt;
      for num >= 0 it holds no "Negative", for num > 0 no "Zero", and it
      never holds the words of the amount line around it. */
  lemma NumberWordsShape(num: int)
    requires -WordsLimit < num < WordsLimit
    ensures NumberWords(num) != []
    ensures num >= 0 ==> NegativeWord !in NumberWords(num)
    ensures num > 0 ==> forall w :: w in NumberWords(num) ==> IsNumberWord(w)
    ensures forall w :: w in NumberWords(num) ==> IsNumberWord(w) || w in {ZeroWord, NegativeWord}
  {
    if num < 0 {
      PositiveWordsShape(-num);
    } else if num > 0 {
      PositiveWordsShape(num);
    }
  }

  /** Every word of `NumberWords(num)` can be spelt. */
  lemma NumberWordsSpellable(num: int)
    requires -WordsLimit < num < WordsLimit
    ensures forall w :: w in NumberWords(num) ==> Spellable(w)
  {
    NumberWordsShape(num);
    forall w | w in NumberWords(num)
      ensures Spellable(w)
    {
      assert IsNumberWord(w) || w in {ZeroWord, NegativeWord};
    }
  }

  lemma {:induction false} SpacedAppend(a: seq<Word>, b: seq<Word>)
    ensures Spaced(a + b) == Spaced(a) + Spaced(b)
  {
    if a == [] {
      assert a + b == b;
    } else {
      assert (a + b)[0] == a[0];
      assert (a + b)[1..] == a[1..] + b;
      SpacedAppend(a[1..], b);
      var head := Spelling(a[0]) + " ";
      assert Spaced(a + b) == head + (Spaced(a[1..]) + Spaced(b));
      assert head + (Spaced(a[1..]) + Spaced(b)) == (head + Spaced(a[1..])) + Spaced(b);
    }
  }

  lemma {:induction false} JoinCons(w: Word, ws: seq<Word>)
    requires ws != []
    ensures Join([w] + ws) == Spelling(w) + " " + Join(ws)
  {
    assert ([w] + ws)[1..] == ws;
  }

  lemma {:induction false} JoinAppend(a: seq<Word>, b: seq<Word>)
    requires a != [] && b != []
    ensures Join(a + b) == Join(a) + " " + Join(b)
  {
    assert (a + b)[0] == a[0];
    assert (a + b)[1..] == a[1..] + b;
    if |a| > 1 {
      JoinAppend(a[1..], b);
    }
  }

  /** Spaced words are the joined words plus one trailing space. */
  lemma {:induction false} SpacedIsJoinPlusSpace(ws: seq<Word>)
    requires ws != []
    ensures Spaced(ws) == Join(ws) + " "
  {
    if |ws| > 1 {
      SpacedIsJoinPlusSpace(ws[1..]);
    }
  }

  /** Joined spellable words start and end with a non-whitespace character. */
  lemma {:induction false} JoinEnds(ws: seq<Word>)
    requires ws != [] && forall w :: w in ws ==> Spellable(w)
    ensures Join(ws) != [] && !IsWhitespace(Join(ws)[0]) && !IsWhitespace(Join(ws)[|Join(ws)| - 1])
  {
    SpellingIsWordText(ws[0]);
    if |ws| > 1 {
      assert forall w :: w in ws[1..] ==> w in ws;
      JoinEnds(ws[1..]);
      var j := Join(ws[1..]);
      assert Join(ws) == Spelling(ws[0]) + " " + j;
      assert Join(ws)[0] == Spelling(ws[0])[0];
      assert Join(ws)[|Join(ws)| - 1] == j[|j| - 1];
    }
  }

  lemma TrimEndSpace(s: string)
    requires s != [] && !IsWhitespace(s[|s| - 1])
    ensures TrimEnd(s + " ") == s
  {
    assert (s + " ")[..|s + " "| - 1] == s;
  }

  /** Trimming the spaced words gives the joined words: the `.trim()` of
      `numberToWords` removes exactly the last space. */
  lemma TrimSpaced(ws: seq<Word>)
    requires ws != [] && forall w :: w in ws ==> Spellable(w)
    ensures Trim(Spaced(ws)) == Join(ws)
  {
    SpacedIsJoinPlusSpace(ws);
    JoinEnds(ws);
    var j := Join(ws);
    assert (j + " ")[0] == j[0];
    assert TrimStart(j + " ") == j + " ";
    TrimEndSpace(j);
  }

  lemma ModOfMod(n: int)
    ensures n % CroreValue % LakhValue == n % LakhValue
    ensures n % LakhValue % ThousandValue == n % 1000
  {
    var q := n / 10000000;
    var p := n / 100000;
    assert n == p * 100000 + n % 100000;
    assert n == q * 10000000 + n % 10000000;
    var k := n % 10000000 / 100000;
    assert n % 10000000 == k * 100000 + n % 10000000 % 100000;
    assert (p - 100 * q - k) * 100000 == n % 10000000 % 100000 - n % 100000;
    var t := n / 1000;
    assert n == t * 1000 + n % 1000;
    var j := n % 100000 / 1000;
    assert n % 100000 == j * 1000 + n % 100000 % 1000;
    assert (t - 100 * p - j) * 1000 == n % 100000 % 1000 - n % 1000;
  }

  /** A number is the sum of its Crore, Lakh, Thousand and hundreds groups. */
  lemma IndianGroups(n: nat)
    ensures n == n / CroreValue * CroreValue + n % CroreValue / LakhValue * LakhValue
               + n % LakhValue / ThousandValue * ThousandValue + n % 1000
  {
    ModOfMod(n);
    assert n == n / 10000000 * 10000000 + n % 10000000;
    assert n % 10000000 == n % 10000000 / 100000 * 100000 + n % 10000000 % 100000;
    assert n % 100000 == n % 100000 / 1000 * 1000 + n % 100000 % 1000;
  }

  /** The text of `numberToWords` is "Zero" for 0, "Negative " and the
      text of the magnitude for negative numbers, and never starts or ends
      with whitespace. */
  lemma NumberTextTrimmed(num: int)
    requires -WordsLimit < num < WordsLimit
    ensures NumberText(0) == "Zero"
    ensures num < 0 ==> NumberText(num) == "Negative " + NumberText(-num)
    ensures NumberText(num) != []
    ensures !IsWhitespace(NumberText(num)[0])
    ensures !IsWhitespace(NumberText(num)[|NumberText(num)| - 1])
  {
    assert NumberWords(0) == [ZeroWord];
    if num < 0 {
      NegativeText(num);
    }
    TextEnds(num);
  }

  /** The text is not empty and starts and ends with a word. */
  lemma TextEnds(num: int)
    requires -WordsLimit < num < WordsLimit
    ensures NumberText(num) != []
    ensures !IsWhitespace(NumberText(num)[0])
    ensures !IsWhitespace(NumberText(num)[|NumberText(num)| - 1])
  {
    NumberWordsShape(num);
    NumberWordsSpellable(num);
    JoinEnds(NumberWords(num));
  }

  /** Which group words appear: "Crore" exactly for num >= 10^7, "Lakh"
      exactly when num mod 10^7 >= 10^5, "Thousand" exactly when
      num mod 10^5 >= 1000; so below 1000 none of them appears. */
  lemma GroupWordsPresent(num: nat)
    requires num < WordsLimit
    ensures CroreWord in NumberWords(num) <==> num >= CroreValue
    ensures LakhWord in NumberWords(num) <==> num % CroreValue >= LakhValue
    ensures ThousandWord in NumberWords(num) <==> num % LakhValue >= ThousandValue
  {
    if num < 1000 {
      HundredsWordsShape(num);
      assert num % CroreValue == num && num % LakhValue == num;
    } else {
      var c, l, t := num / CroreValue, num % CroreValue / LakhValue, num % LakhValue / ThousandValue;
      var cw, lw, tw, hw := GroupWords(c, CroreWord), GroupWords(l, LakhWord),
                            GroupWords(t, ThousandWord), HundredsWords(num % 1000);
      assert NumberWords(num) == LargeWords(num) == cw + lw + tw + hw;
      UnitsOfGroup(c, CroreWord);
      UnitsOfGroup(l, LakhWord);
      UnitsOfGroup(t, ThousandWord);
      HundredsWordsShape(num % 1000);
      assert forall w :: IsUnitWord(w) ==> (w in cw + lw + tw + hw <==> w in cw || w in lw || w in tw);
    }
  }

  lemma {:induction false} ReadWordsAppend(a: seq<Word>, b: seq<Word>, st: Reading)
    ensures ReadWords(a + b, st) == ReadWords(b, ReadWords(a, st))
  {
    if a == [] {
      assert a + b == b;
    } else {
      assert (a + b)[0] == a[0];
      assert (a + b)[1..] == a[1..] + b;
      ReadWordsAppend(a[1..], b, ReadWord(st, a[0]));
    }
  }

  lemma ReadSingle(w: Word, st: Reading)
    ensures ReadWords([w], st) == ReadWord(st, w)
  {
    assert [w][1..] == [];
  }

  /** Reading the words of `convertHundreds(n)` puts `n` in the open group. */
  lemma ReadHundreds(n: nat, total: int)
    requires n < 2000
    ensures ReadWords(HundredsWords(n), Reading(total, 0)) == Reading(total, n)
  {
    var m := n % 100;
    var u := if m >= 20 then m % 10 else m;
    var hw := if n >= 100 then [OnesWord(n / 100), HundredWord] else [];
    var tw := if m >= 20 then [TensWord(m / 10)] else [];
    var uw := if u > 0 then [OnesWord(u)] else [];
    assert HundredsWords(n) == hw + tw + uw;
    var g1 := n / 100 * 100;
    assert ReadWords(hw, Reading(total, 0)) == Reading(total, g1) by {
      if n >= 100 {
        assert hw == [OnesWord(n / 100)] + [HundredWord];
        ReadSingle(OnesWord(n / 100), Reading(total, 0));
        ReadSingle(HundredWord, Reading(total, n / 100));
        ReadWordsAppend([OnesWord(n / 100)], [HundredWord], Reading(total, 0));
      }
    }
    var g2 := g1 + (if m >= 20 then m / 10 * 10 else 0);
    assert ReadWords(tw, Reading(total, g1)) == Reading(total, g2) by {
      if m >= 20 {
        ReadSingle(TensWord(m / 10), Reading(total, g1));
      }
    }
    assert ReadWords(uw, Reading(total, g2)) == Reading(total, g2 + u) by {
      if u > 0 {
        ReadSingle(OnesWord(u), Reading(total, g2));
      }
    }
    assert g2 + u == n;
    ReadWordsAppend(hw, tw, Reading(total, 0));
    ReadWordsAppend(hw + tw, uw, Reading(total, 0));
  }

  /** Reading a group adds `count` units to the total and closes the group. */
  lemma ReadGroup(count: nat, unit: Word, total: int)
    requires count < 2000
    requires unit in {CroreWord, LakhWord, ThousandWord}
    ensures ReadWords(GroupWords(count, unit), Reading(total, 0))
         == Reading(total + count * UnitValue(unit), 0)
  {
    if count > 0 {
      ReadHundreds(count, total);
      ReadWordsAppend(HundredsWords(count), [unit], Reading(total, 0));
    }
  }

  function UnitValue(unit: Word): int {
    match unit
    case CroreWord => CroreValue
    case LakhWord => LakhValue
    case ThousandWord => ThousandValue
    case _ => 1
  }

  /** Reading the words back gives the number: the conversion loses nothing. */
  lemma NumberWordsRoundTrip(num: int)
    requires -WordsLimit < num < WordsLimit
    ensures WordsToNumber(NumberWords(num)) == num
    decreases if num < 0 then 1 else 0
  {
    if num < 0 {
      NumberWordsRoundTrip(-num);
      assert ([NegativeWord] + NumberWords(-num))[1..] == NumberWords(-num);
    } else if num > 0 {
      var ws := NumberWords(num);
      NumberWordsShape(num);
      assert ws[0] != NegativeWord by {
        assert ws[0] in ws;
      }
      assert WordsToNumber(ws) == ReadWords(ws, Reading(0, 0)).total + ReadWords(ws, Reading(0, 0)).group;
      if num < 1000 {
        ReadHundreds(num, 0);
      } else {
        ReadLarge(num);
      }
    } else {
      ReadSingle(ZeroWord, Reading(0, 0));
    }
  }

  /** Reading the groups of a number from 1000 up gives the number. */
  lemma ReadLarge(num: int)
    requires 1000 <= num < WordsLimit
    ensures ReadWords(LargeWords(num), Reading(0, 0)).total + ReadWords(LargeWords(num), Reading(0, 0)).group == num
  {
    var ws := LargeWords(num);
    var c, l, t, h := num / CroreValue, num % CroreValue / LakhValue,
                      num % LakhValue / ThousandValue, num % 1000;
    var cw, lw, tw, hw := GroupWords(c, CroreWord), GroupWords(l, LakhWord),
                          GroupWords(t, ThousandWord), HundredsWords(h);
    assert ws == cw + lw + tw + hw;
    var t1, t2, t3 := c * CroreValue, c * CroreValue + l * LakhValue,
                      c * CroreValue + l * LakhValue + t * ThousandValue;
    ReadGroup(c, CroreWord, 0);
    assert ReadWords(cw, Reading(0, 0)) == Reading(t1, 0);
    ReadGroup(l, LakhWord, t1);
    assert ReadWords(lw, Reading(t1, 0)) == Reading(t2, 0);
    ReadGroup(t, ThousandWord, t2);
    assert ReadWords(tw, Reading(t2, 0)) == Reading(t3, 0);
    ReadHundreds(h, t3);
    ReadWordsAppend(cw, lw, Reading(0, 0));
    ReadWordsAppend(cw + lw, tw, Reading(0, 0));
    ReadWordsAppend(cw + lw + tw, hw, Reading(0, 0));
    assert ReadWords(ws, Reading(0, 0)) == Reading(t3, h);
    IndianGroups(num);
  }
}

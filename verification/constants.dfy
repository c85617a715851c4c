/** Game constants: how many words a grid of a given size asks for, and the
    alphabet that fills the cells no word uses. */
module Constants {

  /** The target number of words for a grid of side `size`: a step function
      with steps at 5, 6, 7, 8, 9 and 10. */
  function GetWordCountForGridSize(size: int): (n: int)
    ensures 6 <= n <= 24
    ensures size >= 10 ==> n == 24
    ensures size < 5 ==> n == 6
  {
    if size >= 10 then 24
    else if size >= 9 then 20
    else if size >= 8 then 16
    else if size >= 7 then 12
    else if size >= 6 then 10
    else if size >= 5 then 8
    else 6
  }

  lemma WordCountTable()
    ensures GetWordCountForGridSize(5) == 8
    ensures GetWordCountForGridSize(6) == 10
    ensures GetWordCountForGridSize(7) == 12
    ensures GetWordCountForGridSize(8) == 16
    ensures GetWordCountForGridSize(9) == 20
  {
  }

  /** A bigger grid never asks for fewer words. */
  lemma WordCountMonotone(a: int, b: int)
    requires a <= b
    ensures GetWordCountForGridSize(a) <= GetWordCountForGridSize(b)
  {
  }

  /** The filler alphabet, entry by entry: the 46 basic hiragana, あ to ん
      in gojūon order. */
  function HiraganaLetter(i: nat): char
    requires i < 46
  {
    match i
    case 0 => 'あ' case 1 => 'い' case 2 => 'う' case 3 => 'え' case 4 => 'お'
    case 5 => 'か' case 6 => 'き' case 7 => 'く' case 8 => 'け' case 9 => 'こ'
    case 10 => 'さ' case 11 => 'し' case 12 => 'す' case 13 => 'せ' case 14 => 'そ'
    case 15 => 'た' case 16 => 'ち' case 17 => 'つ' case 18 => 'て' case 19 => 'と'
    case 20 => 'な' case 21 => 'に' case 22 => 'ぬ' case 23 => 'ね' case 24 => 'の'
    case 25 => 'は' case 26 => 'ひ' case 27 => 'ふ' case 28 => 'へ' case 29 => 'ほ'
    case 30 => 'ま' case 31 => 'み' case 32 => 'む' case 33 => 'め' case 34 => 'も'
    case 35 => 'や' case 36 => 'ゆ' case 37 => 'よ'
    case 38 => 'ら' case 39 => 'り' case 40 => 'る' case 41 => 'れ' case 42 => 'ろ'
    case 43 => 'わ' case 44 => 'を' case 45 => 'ん'
  }

  /** Entries `i..45` of the filler alphabet, as one-character strings. */
  function HiraganaFrom(i: nat): (s: seq<string>)
    requires i <= 46
    ensures |s| == 46 - i
    ensures forall k :: 0 <= k < |s| ==> s[k] == [HiraganaLetter(i + k)]
    decreases 46 - i
  {
    if i == 46 then [] else [[HiraganaLetter(i)]] + HiraganaFrom(i + 1)
  }

  /** The filler alphabet `HIRAGANA_CHARS`: 46 one-character strings. */
  const HiraganaChars: seq<string> := HiraganaFrom(0)

  /** A sequence whose neighbours strictly increase has no repeated element. */
  lemma {:induction false} IncreasingIsDistinct(s: seq<char>)
    requires forall k :: 0 <= k < |s| - 1 ==> s[k] < s[k + 1]
    ensures forall i, j :: 0 <= i < j < |s| ==> s[i] < s[j]
  {
    if |s| > 1 {
      IncreasingIsDistinct(s[1..]);
      forall i, j | 0 <= i < j < |s|
        ensures s[i] < s[j]
      {
        assert s[j] == s[1..][j - 1];
        if 0 < i {
          assert s[i] == s[1..][i - 1];
        } else if 1 < j {
          assert s[1] == s[1..][0];
        }
      }
    }
  }

  /** Every filler is exactly one character and no two fillers are equal, so
      whatever index the random draw yields, the filled cell is non-blank. */
  lemma HiraganaCharsShape()
    ensures |HiraganaChars| == 46
    ensures forall i :: 0 <= i < |HiraganaChars| ==> |HiraganaChars[i]| == 1
    ensures forall i, j :: 0 <= i < j < |HiraganaChars| ==> HiraganaChars[i] != HiraganaChars[j]
  {
    var letters := seq(46, i requires 0 <= i < 46 => HiraganaLetter(i));
    assert forall k :: 0 <= k < 45 ==> HiraganaLetter(k) < HiraganaLetter(k + 1);
    IncreasingIsDistinct(letters);
    assert forall i :: 0 <= i < 46 ==> HiraganaChars[i] == [letters[i]];
  }
}

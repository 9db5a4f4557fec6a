/**
  The avatar shown for a user name: up to two upper-case initials and a
  background colour chosen from a fixed palette by the sum of the name's
  UTF-16 code units.
 */
module AvatarInitials {
  import opened TextUtil

  /** `s.substring(0, n)` for `n >= 0`. */
  function Prefix(s: string, n: nat): (r: string)
    ensures |r| <= n && r <= s
    ensures |s| <= n ==> r == s
  {
    if |s| <= n then s else s[..n]
  }

  /** Words of a trimmed name: a space can be neither its first nor its last character. */
  predicate Trimmed(t: string) {
    t == [] || (t[0] != ' ' && t[|t| - 1] != ' ')
  }

  /** `getInitials` after the `trim()`: the split and the upper-casing. */
  function TrimmedInitials(t: string): (r: string)
    requires Trimmed(t)
    ensures |r| <= 2
    ensures forall i :: 0 <= i < |r| ==> UpperChar(r[i]) == r[i]
  {
    var words := Split(t, ' ');
    if |words| == 1 then ToUpperAscii(Prefix(words[0], 2))
    else
      SplitOnePiece(t, ' ');
      SplitFirstChar(t, ' ');
      SplitLastNonEmpty(t, ' ');
      ToUpperAscii([words[0][0], words[|words| - 1][0]])
  }

  /**
    `getInitials`: split the trimmed name on single spaces; one word gives its
    first two characters, several words give the first character of the first
    and of the last word; either way upper-cased.
   */
  function Initials(name: string): (r: string)
    ensures |r| <= 2
    ensures forall i :: 0 <= i < |r| ==> UpperChar(r[i]) == r[i]
    ensures Trim(name) == [] ==> r == []
  {
    TrimmedInitials(Trim(name))
  }

  /** A single word gives its first two characters, upper-cased. */
  lemma InitialsOfOneWord(name: string)
    requires ' ' !in Trim(name)
    ensures Initials(name) == ToUpperAscii(Prefix(Trim(name), 2))
  {
    var t := Trim(name);
    SplitNoSeparator(t, ' ');
    assert Initials(name) == TrimmedInitials(t);
  }

  /** On a trimmed name: the first character and the character after the last space. */
  lemma TrimmedInitialsOfSeveralWords(t: string, j: nat)
    requires Trimmed(t)
    requires j < |t| && t[j] == ' ' && ' ' !in t[j + 1..]
    ensures j + 1 < |t|
    ensures TrimmedInitials(t) == [UpperChar(t[0]), UpperChar(t[j + 1])]
  {
    var words := Split(t, ' ');
    assert |words| != 1 by {
      SplitSeparatorCount(t, ' ', j);
    }
    assert words[0][0] == t[0] by {
      SplitFirstChar(t, ' ');
    }
    assert words[|words| - 1] == t[j + 1..] by {
      SplitLastAt(t, ' ', j);
    }
    assert TrimmedInitials(t) == ToUpperAscii([words[0][0], words[|words| - 1][0]]);
  }

  /**
    With a space in the trimmed name, the initials are the first character of
    the name and the character after its last space.
   */
  lemma InitialsOfSeveralWords(name: string, j: nat)
    requires j < |Trim(name)| && Trim(name)[j] == ' ' && ' ' !in Trim(name)[j + 1..]
    ensures j + 1 < |Trim(name)|
    ensures Initials(name) == [UpperChar(Trim(name)[0]), UpperChar(Trim(name)[j + 1])]
  {
    TrimmedInitialsOfSeveralWords(Trim(name), j);
  }

  /** Whitespace around a name does not change its initials. */
  lemma InitialsIgnorePadding(p: string, name: string, q: string)
    requires AllWhitespace(p) && AllWhitespace(q)
    ensures Initials(p + name + q) == Initials(name)
  {
    TrimIgnoresPadding(p, name, q);
    assert Initials(p + name + q) == TrimmedInitials(Trim(p + name + q));
  }

  /** The five avatar backgrounds, in palette order. */
  const Palette: seq<string> := ["bg-accent", "bg-lost", "bg-found", "bg-matched", "bg-primary"]

  /**
    The UTF-16 encoding of one character: the code point itself below
    U+10000, otherwise a high and a low surrogate.
   */
  function Utf16(c: char): (u: seq<nat>)
    ensures |u| == 1 <==> c as int < 0x1_0000
    ensures |u| == 1 ==> u[0] == c as int
    ensures |u| != 1 ==> |u| == 2 && 0xD800 <= u[0] < 0xDC00 <= u[1] < 0xE000
    ensures |u| == 2 ==> 0x1_0000 + (u[0] - 0xD800) * 0x400 + (u[1] - 0xDC00) == c as int
  {
    var v := c as int;
    if v < 0x1_0000 then [v]
    else [0xD800 + (v - 0x1_0000) / 0x400, 0xDC00 + (v - 0x1_0000) % 0x400]
  }

  /** The sum of the UTF-16 code units of one character. */
  function UnitSum(c: char): nat {
    var u := Utf16(c);
    if |u| == 1 then u[0] else u[0] + u[1]
  }

  /**
    `name.split("").reduce((acc, char) => acc + char.charCodeAt(0), 0)`:
    `split("")` yields the UTF-16 code units of the name, so a character above
    U+FFFF adds both of its surrogates.
   */
  function CodeSum(s: string): nat {
    if s == [] then 0 else CodeSum(s[..|s| - 1]) + UnitSum(s[|s| - 1])
  }

  lemma {:induction false} CodeSumConcat(a: string, b: string)
    ensures CodeSum(a + b) == CodeSum(a) + CodeSum(b)
    decreases |b|
  {
    if b != [] {
      var c := a + b;
      assert c[..|c| - 1] == a + b[..|b| - 1];
      assert c[|c| - 1] == b[|b| - 1];
      assert CodeSum(c) == CodeSum(c[..|c| - 1]) + UnitSum(c[|c| - 1]);
      assert CodeSum(b) == CodeSum(b[..|b| - 1]) + UnitSum(b[|b| - 1]);
      CodeSumConcat(a, b[..|b| - 1]);
    } else {
      assert a + b == a;
    }
  }

  /** The sum ignores the order of the characters. */
  lemma {:induction false} CodeSumPermutation(a: string, b: string)
    requires multiset(a) == multiset(b)
    ensures CodeSum(a) == CodeSum(b)
    decreases |a|
  {
    if a != [] {
      var x := a[0];
      assert x in multiset(b) by {
        assert x in multiset(a);
      }
      var k :| 0 <= k < |b| && b[k] == x;
      RemainderAgrees(a, b, k);
      CodeSumPermutation(a[1..], b[..k] + b[k + 1..]);
      CodeSumStep(a, b, k);
    } else {
      assert |b| == |multiset(b)|;
    }
  }

  lemma RemainderAgrees(a: string, b: string, k: nat)
    requires a != [] && k < |b| && b[k] == a[0] && multiset(a) == multiset(b)
    ensures multiset(a[1..]) == multiset(b[..k] + b[k + 1..])
  {
    assert a == [a[0]] + a[1..];
    MultisetRemove(b, k);
  }

  lemma CodeSumStep(a: string, b: string, k: nat)
    requires a != [] && k < |b| && b[k] == a[0]
    requires CodeSum(a[1..]) == CodeSum(b[..k] + b[k + 1..])
    ensures CodeSum(a) == CodeSum(b)
  {
    CodeSumRemove(a, 0);
    CodeSumRemove(b, k);
    assert a[..0] + a[1..] == a[1..];
  }

  lemma MultisetRemove(b: string, k: nat)
    requires k < |b|
    ensures multiset(b[..k] + b[k + 1..]) == multiset(b) - multiset{b[k]}
  {
    assert b == b[..k] + [b[k]] + b[k + 1..];
  }

  lemma CodeSumRemove(b: string, k: nat)
    requires k < |b|
    ensures CodeSum(b) == CodeSum(b[..k] + b[k + 1..]) + UnitSum(b[k])
  {
    SplitAround(b, k);
    CodeSumConcat(b[..k], [b[k]] + b[k + 1..]);
    CodeSumConcat([b[k]], b[k + 1..]);
    CodeSumConcat(b[..k], b[k + 1..]);
    CodeSumOne(b[k]);
  }

  lemma SplitAround<T>(b: seq<T>, k: nat)
    requires k < |b|
    ensures b == b[..k] + ([b[k]] + b[k + 1..])
  {
  }

  lemma CodeSumOne(x: char)
    ensures CodeSum([x]) == UnitSum(x)
  {
    assert [x][..0] == [];
  }

  /** `getColorFromName`: the palette entry at the code sum modulo the palette size. */
  function ColorFromName(name: string): (r: string)
    ensures r in Palette
    ensures name == [] ==> r == "bg-accent"
  {
    Palette[CodeSum(name) % |Palette|]
  }

  /**
    U+1F600 is the surrogate pair D83D DE00, whose sum 112189 leaves 4 modulo
    5: the last palette entry, not the one its code point 128512 would pick.
   */
  lemma ColorOfAstralCharacter()
    ensures Utf16('\U{1F600}') == [0xD83D, 0xDE00]
    ensures ColorFromName("\U{1F600}") == "bg-primary"
  {
    assert CodeSum("\U{1F600}") == 0xD83D + 0xDE00 by {
      CodeSumOne('\U{1F600}');
    }
  }

  /** Names made of the same characters get the same colour. */
  lemma ColorIgnoresOrder(a: string, b: string)
    requires multiset(a) == multiset(b)
    ensures ColorFromName(a) == ColorFromName(b)
  {
    CodeSumPermutation(a, b);
  }

  /** The fallback display name "Unknown User" shows "UU". */
  lemma UnknownUserInitials()
    ensures Initials("Unknown User") == "UU"
  {
    var t := "Unknown User";
    assert Trim(t) == t by {
      assert t[0] == 'U' && t[|t| - 1] == 'r';
      LetterIsNotWhitespace('U');
      LetterIsNotWhitespace('r');
      TrimUnpadded(t);
    }
    assert TrimmedInitials(t) == "UU" by {
      assert t[7] == ' ' && t[8..] == "User";
      TrimmedInitialsOfSeveralWords(t, 7);
      assert UpperChar('U') == 'U';
    }
  }
}

/**
 * Python's `str.strip()` and `str.title()` restricted to ASCII: the text
 * normalisation applied to the free-text columns of the crash table.
 */
module Text {

  /** Characters Python's `str.strip()` removes, restricted to ASCII:
      tab, line feed, vertical tab, form feed, carriage return, the four
      information separators 0x1C-0x1F, and space. */
  predicate IsSpace(c: char) {
    var n := c as int;
    9 <= n <= 13 || 28 <= n <= 32
  }

  predicate IsUpper(c: char) { 'A' <= c <= 'Z' }
  predicate IsLower(c: char) { 'a' <= c <= 'z' }

  /** The cased characters of ASCII. */
  predicate IsLetter(c: char) { IsUpper(c) || IsLower(c) }

  function Upper(c: char): (u: char)
    ensures IsLetter(c) ==> IsUpper(u)
    ensures !IsLower(c) ==> u == c
  {
    if IsLower(c) then (c as int - 32) as char else c
  }

  function Lower(c: char): (l: char)
    ensures IsLetter(c) ==> IsLower(l)
    ensures !IsUpper(c) ==> l == c
  {
    if IsUpper(c) then (c as int + 32) as char else c
  }

  lemma {:induction false} CaseFolds(c: char)
    requires IsLetter(c)
    ensures Lower(Upper(c)) == Lower(c) && Lower(Lower(c)) == Lower(c)
    ensures Upper(Lower(c)) == Upper(c)
  {
    if IsUpper(c) {
      assert Lower(c) as int == c as int + 32;
    } else {
      assert Upper(c) as int == c as int - 32;
    }
  }

  /** The first position at or after `i` that does not hold whitespace
      (`|s|` when there is none). */
  function StartIndex(s: string, i: nat): (k: nat)
    requires i <= |s|
    ensures i <= k <= |s|
    ensures forall m :: i <= m < k ==> IsSpace(s[m])
    ensures k == |s| || !IsSpace(s[k])
    decreases |s| - i
  {
    if i < |s| && IsSpace(s[i]) then StartIndex(s, i + 1) else i
  }

  /** The end of `s[lo..j]` once its trailing whitespace is dropped. */
  function EndIndex(s: string, lo: nat, j: nat): (k: nat)
    requires lo <= j <= |s|
    ensures lo <= k <= j
    ensures forall m :: k <= m < j ==> IsSpace(s[m])
    ensures k == lo || !IsSpace(s[k - 1])
  {
    if j > lo && IsSpace(s[j - 1]) then EndIndex(s, lo, j - 1) else j
  }

  /**
   * `str.strip()`: the infix of `s` left after removing whitespace from both
   * ends; it neither starts nor ends with whitespace.
   */
  function Strip(s: string): (r: string)
    ensures exists i, j ::
      (0 <= i <= j <= |s| && r == s[i..j]
       && (forall k :: 0 <= k < i ==> IsSpace(s[k]))
       && (forall k :: j <= k < |s| ==> IsSpace(s[k])))
    ensures r == [] || (!IsSpace(r[0]) && !IsSpace(r[|r| - 1]))
  {
    var i := StartIndex(s, 0);
    var j := EndIndex(s, i, |s|);
    s[i..j]
  }

  /** A string that neither starts nor ends with whitespace is left alone. */
  lemma StripTrimmed(s: string)
    requires s == [] || (!IsSpace(s[0]) && !IsSpace(s[|s| - 1]))
    ensures Strip(s) == s
  {
  }

  lemma StripIdempotent(s: string)
    ensures Strip(Strip(s)) == Strip(s)
  {
    StripTrimmed(Strip(s));
  }

  /**
   * `str.title()` as a left-to-right scan: `prevCased` says whether the
   * character before `s` was a letter. A letter that follows a letter is
   * lower-cased, any other letter is upper-cased; other characters are kept.
   */
  function TitleFrom(s: string, prevCased: bool): (r: string)
    ensures |r| == |s|
  {
    if s == [] then []
    else
      var c := s[0];
      [if IsLetter(c) then (if prevCased then Lower(c) else Upper(c)) else c]
        + TitleFrom(s[1..], IsLetter(c))
  }

  function Title(s: string): (r: string)
    ensures |r| == |s|
  {
    TitleFrom(s, false)
  }

  /** Title case, position by position: whether a letter starts a word. */
  function TitleChar(s: string, i: nat): char
    requires i < |s|
  {
    if !IsLetter(s[i]) then s[i]
    else if i > 0 && IsLetter(s[i - 1]) then Lower(s[i])
    else Upper(s[i])
  }

  lemma {:induction false} TitleFromAt(s: string, prevCased: bool, i: nat)
    requires i < |s|
    ensures TitleFrom(s, prevCased)[i] ==
      if !IsLetter(s[i]) then s[i]
      else if (if i == 0 then prevCased else IsLetter(s[i - 1])) then Lower(s[i])
      else Upper(s[i])
  {
    if i > 0 {
      TitleFromAt(s[1..], IsLetter(s[0]), i - 1);
    }
  }

  /** The scan agrees with the position-wise definition. */
  lemma TitleAt(s: string, i: nat)
    requires i < |s|
    ensures Title(s)[i] == TitleChar(s, i)
  {
    TitleFromAt(s, false, i);
  }

  /** Title-cased: a letter is upper case exactly when it is first or the
      character just before it is not a letter. */
  ghost predicate IsTitled(s: string) {
    forall i :: 0 <= i < |s| ==> TitledAt(s, i)
  }

  /** The letter at `i`, if any, is upper case exactly when it starts a word:
      it is first, or the character just before it is not a letter. */
  ghost predicate TitledAt(s: string, i: nat)
    requires i < |s|
  {
    IsLetter(s[i]) ==> (IsUpper(s[i]) <==> (i == 0 || !IsLetter(s[i - 1])))
  }

  /**
   * `Title` only changes the case of letters, keeps every non-letter and
   * leaves its result title-cased.
   */
  lemma TitleSpec(s: string)
    ensures IsTitled(Title(s))
    ensures forall i :: 0 <= i < |s| ==> Lower(Title(s)[i]) == Lower(s[i])
    ensures forall i :: 0 <= i < |s| ==> (IsLetter(Title(s)[i]) <==> IsLetter(s[i]))
    ensures forall i :: 0 <= i < |s| && !IsLetter(s[i]) ==> Title(s)[i] == s[i]
  {
    forall i | 0 <= i < |s|
      ensures Lower(Title(s)[i]) == Lower(s[i])
      ensures IsLetter(Title(s)[i]) <==> IsLetter(s[i])
      ensures !IsLetter(s[i]) ==> Title(s)[i] == s[i]
    {
      TitleAt(s, i);
      if IsLetter(s[i]) { CaseFolds(s[i]); }
    }
    forall i | 0 <= i < |s| ensures TitledAt(Title(s), i) {
      TitleAt(s, i);
      if i > 0 {
        TitleAt(s, i - 1);
        if IsLetter(s[i - 1]) { CaseFolds(s[i - 1]); }
      }
    }
  }

  /** A title-cased string is its own title case. */
  lemma TitledFixed(s: string)
    requires IsTitled(s)
    ensures Title(s) == s
  {
    forall i | 0 <= i < |s| ensures Title(s)[i] == s[i] {
      TitleAt(s, i);
      assert TitledAt(s, i);
    }
  }

  lemma TitleIdempotent(s: string)
    ensures Title(Title(s)) == Title(s)
  {
    var t := Title(s);
    forall i | 0 <= i < |s| ensures Title(t)[i] == t[i] {
      TitleAt(s, i);
      TitleAt(t, i);
      if IsLetter(s[i]) { CaseFolds(s[i]); }
      if i > 0 {
        TitleAt(s, i - 1);
        if IsLetter(s[i - 1]) { CaseFolds(s[i - 1]); }
      }
    }
  }

  /** Strip, then title-case: the normalisation of Country/Region and
      Aircraft Manufacturer. */
  function StripTitle(s: string): string {
    Title(Strip(s))
  }

  /** Normalising an already normalised value changes nothing. */
  lemma StripTitleIdempotent(s: string)
    ensures StripTitle(StripTitle(s)) == StripTitle(s)
  {
    var u := Strip(s);
    var t := Title(u);
    if t != [] {
      TitleAt(u, 0);
      TitleAt(u, |u| - 1);
    }
    StripTrimmed(t);
    TitleIdempotent(u);
  }

  /** The manufacturer example: surrounding blanks go, the word is capitalised. */
  lemma StripTitleBoeing()
    ensures StripTitle(" boeing ") == "Boeing"
  {
    assert StartIndex(" boeing ", 0) == 1;
    assert EndIndex(" boeing ", 1, 8) == 7;
    assert Strip(" boeing ") == " boeing "[1..7] == "boeing";
    assert Upper('b') == 'B';
    forall i | 0 <= i < 6 ensures Title("boeing")[i] == "Boeing"[i] {
      TitleAt("boeing", i);
    }
    assert Title("boeing") == "Boeing";
  }

  /** A letter after an apostrophe starts a new word. */
  lemma TitleApostrophe()
    ensures Title("o'neil") == "O'Neil"
  {
    assert Upper('o') == 'O' && Upper('n') == 'N';
    forall i | 0 <= i < 6 ensures Title("o'neil")[i] == "O'Neil"[i] {
      TitleAt("o'neil", i);
    }
  }
}

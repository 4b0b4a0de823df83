/** Python's notion of white space in str: what split(), strip() and the regular expression class \s
    treat as blank.

    The characters are listed by code point; the ASCII separators 0x1C to 0x1F count as blanks, as they
    do in Python. Words are the maximal runs of other characters; cutting text next to a blank, and
    stripping it, keep its words. */
module PythonText {

  predicate IsSpace(c: char) {
    var k := c as int;
    || 0x09 <= k <= 0x0D || 0x1C <= k <= 0x20 || k == 0x85 || k == 0xA0 || k == 0x1680
    || 0x2000 <= k <= 0x200A || k == 0x2028 || k == 0x2029 || k == 0x202F || k == 0x205F || k == 0x3000
  }

  /** The 29 blanks, one by one. */
  lemma BlanksListed(c: char)
    ensures var all := {9, 10, 11, 12, 13, 28, 29, 30, 31, 32, 133, 160, 5760, 8192, 8193, 8194, 8195, 8196, 8197,
                        8198, 8199, 8200, 8201, 8202, 8232, 8233, 8239, 8287, 12288};
            IsSpace(c) <==> c as int in all
  {
  }

  predicate IsBlank(s: string) {
    forall i :: 0 <= i < |s| ==> IsSpace(s[i])
  }

  /** The length of the run of non-blank characters at the front. */
  function WordLength(s: string): (k: nat)
    ensures k <= |s| && (s != [] && !IsSpace(s[0]) ==> k > 0)
    ensures forall i :: 0 <= i < k ==> !IsSpace(s[i])
    ensures k < |s| ==> IsSpace(s[k])
  {
    if s == [] || IsSpace(s[0]) then 0 else 1 + WordLength(s[1..])
  }

  /** s.split(): the maximal runs of non-blank characters, in order. */
  function Words(s: string): seq<string> {
    if s == [] then []
    else if IsSpace(s[0]) then Words(s[1..])
    else [s[..WordLength(s)]] + Words(s[WordLength(s)..])
  }

  function StripLeft(s: string): (r: string)
    ensures r != [] ==> !IsSpace(r[0])
  {
    if s != [] && IsSpace(s[0]) then StripLeft(s[1..]) else s
  }

  function StripRight(s: string): (r: string)
    ensures r <= s
    ensures r != [] ==> !IsSpace(r[|r| - 1])
  {
    if s != [] && IsSpace(s[|s| - 1]) then StripRight(s[..|s| - 1]) else s
  }

  /** Starts and ends with a non-blank character. */
  predicate Stripped(s: string) {
    s != [] && !IsSpace(s[0]) && !IsSpace(s[|s| - 1])
  }

  function Strip(s: string): (r: string)
    ensures r == [] || Stripped(r)
    ensures Stripped(s) ==> r == s
  {
    StripRight(StripLeft(s))
  }

  /** Stripping takes off the blanks at both ends and nothing else. */
  lemma {:induction false} StripMeaning(before: string, s: string, after: string)
    requires IsBlank(before) && IsBlank(after) && (s == [] || Stripped(s))
    ensures Strip(before + s + after) == s
  {
    hide IsSpace;
    var rest := s + after;
    assert before + s + after == before + rest;
    LeftStripped(before, rest);
    if s == [] {
      assert rest == after == after + [];
      LeftStripped(after, []);
    } else {
      RightStripped(s, after);
      assert StripLeft(rest) == rest;
    }
  }

  lemma {:induction false} LeftStripped(before: string, rest: string)
    requires IsBlank(before)
    ensures StripLeft(before + rest) == StripLeft(rest)
  {
    hide IsSpace;
    if before == [] {
      assert before + rest == rest;
    } else {
      assert (before + rest)[1..] == before[1..] + rest;
      LeftStripped(before[1..], rest);
    }
  }

  lemma {:induction false} RightStripped(s: string, after: string)
    requires IsBlank(after) && (s == [] || !IsSpace(s[|s| - 1]))
    ensures StripRight(s + after) == s
  {
    hide IsSpace;
    if after == [] {
      assert s + after == s;
    } else {
      var k := |after| - 1;
      assert (s + after)[..|s + after| - 1] == s + after[..k];
      RightStripped(s, after[..k]);
    }
  }

  // ------------------------------------------------------------------ words

  lemma {:induction false} WordLengthAppend(a: string, b: string)
    requires a != [] && !IsSpace(a[0]) && (b == [] || IsSpace(b[0]) || WordLength(a) < |a|)
    ensures WordLength(a + b) == WordLength(a)
  {
    WordLengthIs(a + b, WordLength(a));
  }

  lemma {:induction false} WordLengthIs(s: string, k: nat)
    requires k <= |s| && (forall i :: 0 <= i < k ==> !IsSpace(s[i])) && (k == |s| || IsSpace(s[k]))
    ensures WordLength(s) == k
  {
    if k == 0 {
    } else {
      WordLengthIs(s[1..], k - 1);
    }
  }

  /** A cut next to a blank splits no word. */
  lemma {:induction false} WordsAppend(a: string, b: string)
    requires b == [] || IsSpace(b[0]) || a == [] || IsSpace(a[|a| - 1])
    ensures Words(a + b) == Words(a) + Words(b)
    decreases |a|
  {
    hide WordLength, IsSpace;
    if a == [] {
      assert a + b == b;
    } else if IsSpace(a[0]) {
      assert (a + b)[1..] == a[1..] + b;
      WordsAppend(a[1..], b);
    } else {
      var k := WordLength(a);
      WordLengthAppend(a, b);
      assert (a + b)[..k] == a[..k] && (a + b)[k..] == a[k..] + b;
      WordsAppend(a[k..], b);
      assert [a[..k]] + (Words(a[k..]) + Words(b)) == ([a[..k]] + Words(a[k..])) + Words(b);
    }
  }

  lemma {:induction false} WordsOfBlank(s: string)
    requires IsBlank(s)
    ensures Words(s) == []
  {
    if s == [] {
    } else {
      WordsOfBlank(s[1..]);
    }
  }

  /** Text without words is blank text. */
  lemma {:induction false} BlankHasNoWords(s: string)
    ensures Words(s) == [] <==> IsBlank(s)
  {
    if s == [] || !IsSpace(s[0]) {
    } else {
      BlankHasNoWords(s[1..]);
      assert IsBlank(s) <==> IsBlank(s[1..]) by { assert s == [s[0]] + s[1..]; }
    }
  }

  /** A run without blanks is one word. */
  lemma WordsOfWord(s: string)
    requires s != [] && forall i :: 0 <= i < |s| ==> !IsSpace(s[i])
    ensures Words(s) == [s]
  {
    WordLengthIs(s, |s|);
    hide WordLength, IsSpace;
    assert s[..|s|] == s && s[|s|..] == [];
  }

  /** Text around blanks keeps its words. */
  lemma WordsAround(a: string, blank: string, b: string)
    requires IsBlank(blank) && blank != []
    ensures Words(a + blank + b) == Words(a) + Words(b)
  {
    hide Words, IsSpace;
    WordsOfBlank(blank);
    WordsAppend(a, blank);
    WordsAppend(a + blank, b);
  }

  lemma {:induction false} WordsStripLeft(s: string)
    ensures Words(StripLeft(s)) == Words(s)
  {
    if s == [] || !IsSpace(s[0]) {
    } else {
      WordsStripLeft(s[1..]);
    }
  }

  lemma {:induction false} WordsStripRight(s: string)
    ensures Words(StripRight(s)) == Words(s)
  {
    if s == [] || !IsSpace(s[|s| - 1]) {
    } else {
      var k := |s| - 1;
      WordsStripRight(s[..k]);
      assert s == s[..k] + [s[k]];
      WordsAppend(s[..k], [s[k]]);
      WordsOfBlank([s[k]]);
    }
  }

  /** Stripping keeps the words; text without words strips to nothing. */
  lemma WordsStrip(s: string)
    ensures Words(Strip(s)) == Words(s)
    ensures Strip(s) == [] <==> Words(s) == []
  {
    WordsStripLeft(s);
    WordsStripRight(StripLeft(s));
  }
}

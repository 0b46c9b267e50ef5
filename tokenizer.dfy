/**
 * StringTokenizer::tokenize without trimming: the text is cut at every
 * character that appears in the delimiter string, and the piece after the
 * last cut is always appended.  The reference definition Tokens cuts at the
 * first delimiter and recurses on the rest; the method keeps the source's
 * two nested loops, including the size_t arithmetic of `substr`.
 */
module Tokenizer {
  /** One past the largest size_t. */
  const SizeT: nat := 0x1_0000_0000_0000_0000

  /** The default delimiter string: a single space. */
  const DefaultDelimiters: string := " "

  /** How often c is listed among the delimiters. */
  function Mult(c: char, delims: string): (r: nat)
    ensures r > 0 <==> c in delims
  {
    multiset(delims)[c]
  }

  /** No delimiter character is listed twice. */
  predicate Distinct(delims: string)
  {
    forall i, j :: 0 <= i < j < |delims| ==> delims[i] != delims[j]
  }

  /** The position of the first delimiter in `text`, or |text| when there is none. */
  function FirstDelim(text: string, delims: string): (r: nat)
    ensures r <= |text|
    ensures r < |text| ==> text[r] in delims
    ensures forall i :: 0 <= i < r ==> text[i] !in delims
  {
    if text == [] || text[0] in delims then 0
    else 1 + FirstDelim(text[1..], delims)
  }

  /** `n` copies of `s`. */
  function Repeat(s: string, n: nat): (r: seq<string>)
    ensures |r| == n && forall i :: 0 <= i < n ==> r[i] == s
  {
    if n == 0 then [] else Repeat(s, n - 1) + [s]
  }

  /**
   * The tokens of `text`: the text before the first delimiter, then the
   * tokens of the text after it.  A delimiter listed m times among the
   * delimiters also contributes m - 1 copies of the whole rest of the text
   * (the later matches take `substr(pos + 1, pos - (pos + 1))`, a length
   * that wraps to the largest size_t).
   */
  function Tokens(text: string, delims: string): (r: seq<string>)
    ensures |r| >= 1
    decreases |text|
  {
    var i := FirstDelim(text, delims);
    if i == |text| then [text]
    else [text[..i]] + Repeat(text[i + 1..], Mult(text[i], delims) - 1) + Tokens(text[i + 1..], delims)
  }

  /** std::string::substr(start, count): at most `count` characters from `start`. */
  function Substr(s: string, start: nat, count: nat): string
    requires start <= |s|
  {
    if count <= |s| - start then s[start .. start + count] else s[start..]
  }

  /** The state of the inner loop after looking at the first `k` delimiters for the character at `pos`. */
  ghost predicate InnerInv(text: string, delims: string, pos: nat, k: nat,
                           acc0: seq<string>, last0: nat, acc: seq<string>, last: nat)
    requires last0 <= pos < |text| && k <= |delims|
  {
    var m := multiset(delims[..k])[text[pos]];
    if m == 0 then acc == acc0 && last == last0
    else last == pos + 1 && acc == acc0 + [text[last0 .. pos]] + Repeat(text[pos + 1..], m - 1)
  }

  /**
   * tokenize(sText, sTokens): the tokens of the text.  Strings are shorter
   * than the largest size_t.
   */
  method Tokenize(text: string, delims: string := DefaultDelimiters) returns (tokens: seq<string>)
    requires |text| < SizeT
    ensures tokens == Tokens(text, delims)
  {
    tokens := [];
    var last: nat := 0;
    var pos: nat := 0;
    while pos < |text|
      invariant last <= pos <= |text|
      invariant forall i :: last <= i < pos ==> text[i] !in delims
      invariant tokens + Tokens(text[last..], delims) == Tokens(text, delims)
    {
      ghost var acc0, last0 := tokens, last;
      tokens, last := MatchDelims(text, delims, pos, tokens, last);
      OuterStep(text, delims, pos, acc0, last0, tokens, last);
      pos := pos + 1;
    }
    tokens := tokens + [text[last..]];
    TokensNoDelim(text[last..], delims);
  }

  /**
   * The inner loop of tokenize: compares the character at `pos` with each
   * delimiter in turn; every match pushes `substr(last, pos - last)` and
   * moves `last` past `pos`.
   */
  method MatchDelims(text: string, delims: string, pos: nat, tokens0: seq<string>, last0: nat)
    returns (tokens: seq<string>, last: nat)
    requires |text| < SizeT && last0 <= pos < |text|
    ensures last <= pos + 1 && InnerInv(text, delims, pos, |delims|, tokens0, last0, tokens, last)
  {
    tokens, last := tokens0, last0;
    var k := 0;
    while k != |delims|
      invariant k <= |delims| && last <= pos + 1
      invariant InnerInv(text, delims, pos, k, tokens0, last0, tokens, last)
    {
      InnerStep(text, delims, pos, k, tokens0, last0, tokens, last);
      if text[pos] == delims[k] {
        var count := (pos - last) % SizeT;
        tokens := tokens + [Substr(text, last, count)];
        last := pos + 1;
      }
      k := k + 1;
    }
  }

  /** Comparing the character at `pos` with delimiter k keeps the inner loop's invariant. */
  lemma {:induction false} InnerStep(text: string, delims: string, pos: nat, k: nat,
                                     acc0: seq<string>, last0: nat, acc: seq<string>, last: nat)
    requires |text| < SizeT && last0 <= pos < |text| && k < |delims| && last <= pos + 1
    requires InnerInv(text, delims, pos, k, acc0, last0, acc, last)
    ensures text[pos] == delims[k] ==>
              InnerInv(text, delims, pos, k + 1, acc0, last0, acc + [Substr(text, last, (pos - last) % SizeT)], pos + 1)
    ensures text[pos] != delims[k] ==> InnerInv(text, delims, pos, k + 1, acc0, last0, acc, last)
  {
    assert delims[..k + 1] == delims[..k] + [delims[k]];
    var m := multiset(delims[..k])[text[pos]];
    if text[pos] == delims[k] {
      if m == 0 {
        assert Substr(text, last, (pos - last) % SizeT) == text[last0 .. pos];
        assert acc + [text[last0 .. pos]] == acc0 + [text[last0 .. pos]] + Repeat(text[pos + 1..], 0);
      } else {
        assert (pos - last) % SizeT == SizeT - 1;
        assert Substr(text, last, (pos - last) % SizeT) == text[pos + 1..];
      }
    }
  }

  /** Finishing the inner loop keeps the outer loop's invariant for the next position. */
  lemma {:induction false} OuterStep(text: string, delims: string, pos: nat,
                                     acc0: seq<string>, last0: nat, acc: seq<string>, last: nat)
    requires last0 <= pos < |text|
    requires forall i :: last0 <= i < pos ==> text[i] !in delims
    requires acc0 + Tokens(text[last0..], delims) == Tokens(text, delims)
    requires InnerInv(text, delims, pos, |delims|, acc0, last0, acc, last)
    ensures last <= pos + 1
    ensures forall i :: last <= i < pos + 1 ==> text[i] !in delims
    ensures acc + Tokens(text[last..], delims) == Tokens(text, delims)
  {
    if text[pos] in delims {
      OuterMatchStep(text, delims, pos, acc0, last0, acc, last);
    } else {
      OuterSkipStep(text, delims, pos, acc0, last0, acc, last);
    }
  }

  /** The character at `pos` is no delimiter: the inner loop produced nothing. */
  lemma {:induction false} OuterSkipStep(text: string, delims: string, pos: nat,
                                     acc0: seq<string>, last0: nat, acc: seq<string>, last: nat)
    requires last0 <= pos < |text| && text[pos] !in delims
    requires forall i :: last0 <= i < pos ==> text[i] !in delims
    requires acc0 + Tokens(text[last0..], delims) == Tokens(text, delims)
    requires InnerInv(text, delims, pos, |delims|, acc0, last0, acc, last)
    ensures last <= pos + 1
    ensures forall i :: last <= i < pos + 1 ==> text[i] !in delims
    ensures acc + Tokens(text[last..], delims) == Tokens(text, delims)
  {
    assert delims[..|delims|] == delims;
  }

  /** The character at `pos` is a delimiter: the inner loop produced the tokens it ends. */
  lemma {:induction false} OuterMatchStep(text: string, delims: string, pos: nat,
                                     acc0: seq<string>, last0: nat, acc: seq<string>, last: nat)
    requires last0 <= pos < |text| && text[pos] in delims
    requires forall i :: last0 <= i < pos ==> text[i] !in delims
    requires acc0 + Tokens(text[last0..], delims) == Tokens(text, delims)
    requires InnerInv(text, delims, pos, |delims|, acc0, last0, acc, last)
    ensures last <= pos + 1
    ensures forall i :: last <= i < pos + 1 ==> text[i] !in delims
    ensures acc + Tokens(text[last..], delims) == Tokens(text, delims)
  {
    assert delims[..|delims|] == delims;
    assert last == pos + 1;
    assert acc == acc0 + [text[last0 .. pos]] + Repeat(text[pos + 1..], Mult(text[pos], delims) - 1);
    OuterMatch(text, delims, pos, acc0, last0);
  }

  /** At a delimiter, the inner loop's output followed by the later tokens is the rest's tokens. */
  lemma {:induction false} OuterMatch(text: string, delims: string, pos: nat, acc0: seq<string>, last0: nat)
    requires last0 <= pos < |text| && text[pos] in delims
    requires forall i :: last0 <= i < pos ==> text[i] !in delims
    ensures var r := Repeat(text[pos + 1..], Mult(text[pos], delims) - 1);
            acc0 + [text[last0 .. pos]] + r + Tokens(text[pos + 1..], delims) == acc0 + Tokens(text[last0..], delims)
  {
    var rest := text[last0..];
    var i := pos - last0;
    TokensStep(rest, delims, i);
    assert rest[..i] == text[last0 .. pos] && rest[i + 1..] == text[pos + 1..];
    var r := Repeat(text[pos + 1..], Mult(text[pos], delims) - 1);
    SeqRegroup(acc0, [text[last0 .. pos]] + r, Tokens(text[pos + 1..], delims));
  }

  /** Concatenation regrouped. */
  lemma {:induction false} SeqRegroup<T>(a: seq<T>, b: seq<T>, c: seq<T>)
    ensures a + b + c == a + (b + c)
  {
  }

  /** One outer step: the rest's tokens, seen from a position with no delimiter before it. */
  lemma {:induction false} TokensStep(rest: string, delims: string, i: nat)
    requires i < |rest| && forall j :: 0 <= j < i ==> rest[j] !in delims
    ensures rest[i] in delims ==>
              Tokens(rest, delims) == [rest[..i]] + Repeat(rest[i + 1..], Mult(rest[i], delims) - 1) + Tokens(rest[i + 1..], delims)
  {
    if rest[i] in delims {
      FirstDelimIs(rest, delims, i);
    }
  }

  /** FirstDelim is the first delimiter position. */
  lemma {:induction false} FirstDelimIs(text: string, delims: string, i: nat)
    requires i < |text| && text[i] in delims
    requires forall j :: 0 <= j < i ==> text[j] !in delims
    ensures FirstDelim(text, delims) == i
  {
  }

  /** A text without delimiters is a single token. */
  lemma {:induction false} TokensNoDelim(text: string, delims: string)
    requires forall i :: 0 <= i < |text| ==> text[i] !in delims
    ensures Tokens(text, delims) == [text]
  {
  }

  // ---------------------------------------------------------------------
  // Properties of the tokens
  // ---------------------------------------------------------------------

  /** The number of (position, delimiter) pairs that match: one push_back each. */
  function DelimHits(text: string, delims: string): (r: nat)
    ensures r == 0 <==> forall i :: 0 <= i < |text| ==> text[i] !in delims
  {
    if text == [] then 0 else Mult(text[0], delims) + DelimHits(text[1..], delims)
  }

  /** The delimiter characters of `text`, in order. */
  function Separators(text: string, delims: string): (r: string)
    ensures |r| <= |text| && forall c :: c in r ==> c in delims
  {
    if text == [] then []
    else (if text[0] in delims then [text[0]] else []) + Separators(text[1..], delims)
  }

  /** The tokens glued back together, each separator between its two neighbours. */
  function Join(tokens: seq<string>, seps: string): (r: string)
    requires |tokens| == |seps| + 1
    ensures |r| == |seps| + TotalLength(tokens)
  {
    if |tokens| == 1 then tokens[0] else tokens[0] + [seps[0]] + Join(tokens[1..], seps[1..])
  }

  /** The summed length of some strings. */
  function TotalLength(tokens: seq<string>): nat
  {
    if tokens == [] then 0 else |tokens[0]| + TotalLength(tokens[1..])
  }

  /** A run without delimiters adds nothing to the hits or the separators. */
  lemma {:induction false} SkipPlain(text: string, delims: string, i: nat)
    requires i <= |text| && forall j :: 0 <= j < i ==> text[j] !in delims
    ensures DelimHits(text, delims) == DelimHits(text[i..], delims)
    ensures Separators(text, delims) == Separators(text[i..], delims)
  {
    if i > 0 {
      assert text[1..][i - 1..] == text[i..];
      SkipPlain(text[1..], delims, i - 1);
    }
  }

  /** The text around its first delimiter. */
  lemma {:induction false} AtFirstDelim(text: string, delims: string)
    requires FirstDelim(text, delims) < |text|
    ensures var i := FirstDelim(text, delims);
            && DelimHits(text, delims) == Mult(text[i], delims) + DelimHits(text[i + 1..], delims)
            && Separators(text, delims) == [text[i]] + Separators(text[i + 1..], delims)
  {
    var i := FirstDelim(text, delims);
    SkipPlain(text, delims, i);
    assert text[i..][1..] == text[i + 1..];
  }

  /**
   * tokenize returns one token more than there are matches of a text
   * character against a delimiter character; the result is never empty.
   */
  lemma {:induction false} TokenCount(text: string, delims: string)
    ensures |Tokens(text, delims)| == 1 + DelimHits(text, delims)
    decreases |text|
  {
    var i := FirstDelim(text, delims);
    if i < |text| {
      AtFirstDelim(text, delims);
      TokenCount(text[i + 1..], delims);
    }
  }

  /** A character listed once among distinct delimiters. */
  lemma {:induction false} MultDistinct(c: char, delims: string)
    requires Distinct(delims) && c in delims
    ensures Mult(c, delims) == 1
  {
    var i :| 0 <= i < |delims| && delims[i] == c;
    assert delims == delims[..i] + [c] + delims[i + 1..];
    assert c !in delims[..i] && c !in delims[i + 1..];
  }

  /** A delimiter listed once ends the first token and nothing else. */
  lemma {:induction false} TokensAtFirst(text: string, delims: string, i: nat)
    requires i == FirstDelim(text, delims) && i < |text| && Mult(text[i], delims) == 1
    ensures Tokens(text, delims) == [text[..i]] + Tokens(text[i + 1..], delims)
    ensures Separators(text, delims) == [text[i]] + Separators(text[i + 1..], delims)
  {
    var later := Tokens(text[i + 1..], delims);
    assert Tokens(text, delims) == [text[..i]] + Repeat(text[i + 1..], 0) + later;
    assert Repeat(text[i + 1..], 0) == [];
    assert [text[..i]] + [] + later == [text[..i]] + later;
    AtFirstDelim(text, delims);
  }

  /** With distinct delimiters every delimiter position ends exactly one token. */
  lemma {:induction false} TokenCountDistinct(text: string, delims: string)
    requires Distinct(delims)
    ensures |Tokens(text, delims)| == 1 + |Separators(text, delims)|
    decreases |text|
  {
    var i := FirstDelim(text, delims);
    if i < |text| {
      MultDistinct(text[i], delims);
      TokensAtFirst(text, delims, i);
      TokenCountDistinct(text[i + 1..], delims);
    } else {
      SkipPlain(text, delims, i);
    }
  }

  /** With distinct delimiters no token contains a delimiter character. */
  lemma {:induction false} TokensHaveNoDelims(text: string, delims: string)
    requires Distinct(delims)
    ensures forall k, j :: 0 <= k < |Tokens(text, delims)| && 0 <= j < |Tokens(text, delims)[k]| ==>
              Tokens(text, delims)[k][j] !in delims
    decreases |text|
  {
    var i := FirstDelim(text, delims);
    if i < |text| {
      MultDistinct(text[i], delims);
      TokensHaveNoDelims(text[i + 1..], delims);
      var later := Tokens(text[i + 1..], delims);
      assert Tokens(text, delims) == [text[..i]] + later;
      forall k, j | 0 <= k < |Tokens(text, delims)| && 0 <= j < |Tokens(text, delims)[k]|
        ensures Tokens(text, delims)[k][j] !in delims
      {
        if k > 0 {
          assert Tokens(text, delims)[k] == later[k - 1];
        }
      }
    }
  }

  /**
   * With distinct delimiters, joining the tokens with the delimiters that
   * separated them gives the text back: the tokens are the text's pieces,
   * left to right.
   */
  lemma {:induction false} JoinTokens(text: string, delims: string)
    requires Distinct(delims)
    ensures |Tokens(text, delims)| == |Separators(text, delims)| + 1
    ensures Join(Tokens(text, delims), Separators(text, delims)) == text
    decreases |text|
  {
    TokenCountDistinct(text, delims);
    var i := FirstDelim(text, delims);
    if i < |text| {
      MultDistinct(text[i], delims);
      TokensAtFirst(text, delims, i);
      JoinTokens(text[i + 1..], delims);
      JoinAt(text, i, Tokens(text, delims), Separators(text, delims),
             Tokens(text[i + 1..], delims), Separators(text[i + 1..], delims));
    }
  }

  /** Joining a first token, a separator and the rest. */
  lemma {:induction false} JoinFront(first: string, sep: char, later: seq<string>, seps: string)
    requires |later| == |seps| + 1
    ensures Join([first] + later, [sep] + seps) == first + [sep] + Join(later, seps)
  {
    assert ([first] + later)[1..] == later;
    assert ([sep] + seps)[1..] == seps;
  }

  /** Joining at the first delimiter, given the join of what follows it. */
  lemma {:induction false} JoinAt(text: string, i: nat, tokens: seq<string>, seps: string, later: seq<string>, laterSeps: string)
    requires i < |text| && |later| == |laterSeps| + 1
    requires tokens == [text[..i]] + later && seps == [text[i]] + laterSeps
    requires Join(later, laterSeps) == text[i + 1..]
    ensures |tokens| == |seps| + 1 && Join(tokens, seps) == text
  {
    JoinFront(text[..i], text[i], later, laterSeps);
    assert text == text[..i] + [text[i]] + text[i + 1..];
  }

  /** An empty text is one empty token. */
  lemma {:induction false} EmptyText(delims: string)
    ensures Tokens("", delims) == [""]
  {
  }

  /** No delimiters: the whole text is the only token. */
  lemma {:induction false} NoDelimiters(text: string)
    ensures Tokens(text, "") == [text]
  {
    TokensNoDelim(text, "");
  }

  /** Adjacent delimiters, and delimiters at either end, give empty tokens. */
  lemma {:induction false} AdjacentDelimiters()
    ensures Tokens(",,", ",") == ["", "", ""]
  {
    var t: string := ",,";
    assert FirstDelim(t, ",") == 0;
    assert t[1..] == ",";
    assert FirstDelim(t[1..], ",") == 0;
    assert t[1..][1..] == "";
  }

  /** The default delimiter is a single space. */
  lemma {:induction false} DefaultSplitsOnSpace()
    ensures Tokens("ab c", DefaultDelimiters) == ["ab", "c"]
  {
    var t: string := "ab c";
    assert FirstDelim(t, " ") == 2 by {
      FirstDelimIs(t, " ", 2);
    }
    assert Mult(' ', " ") == 1 by {
      assert multiset(" ") == multiset{' '};
    }
    assert t[..2] == "ab" && t[3..] == "c";
    TokensNoDelim("c", " ");
  }

  /**
   * A delimiter character listed twice: its second match pushes the whole
   * rest of the text, because `pos - last_pos` wraps to the largest size_t.
   */
  lemma {:induction false} RepeatedDelimiter()
    ensures Tokens("a,b", ",,") == ["a", "b", "b"]
  {
    var t: string := "a,b";
    assert FirstDelim(t, ",,") == 1 by {
      FirstDelimIs(t, ",,", 1);
    }
    assert Mult(',', ",,") == 2 by {
      assert multiset(",,") == multiset{',', ','};
    }
    assert Repeat("b", 1) == ["b"];
    assert t[..1] == "a" && t[2..] == "b";
    TokensNoDelim("b", ",,");
  }
}

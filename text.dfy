/**
 * Counting helpers shared by the programs that size their inputs from text:
 * newline counting (`Size_count`, `read_data`), non-blank line counting
 * (`count_matrix_size`) and token counting (`get_matrix_dimensions`).
 *
 * A file is modelled as an in-memory `string`; a file read line by line with
 * `fgets` is modelled as the sequence of lines `fgets` returns (each one
 * non-empty, ending in '\n' except possibly the last).
 */
module Text {

  /** The number of elements of `s` that satisfy `p`, counted left to right. */
  function Count<T>(s: seq<T>, p: T -> bool): (r: nat)
    ensures r <= |s|
  {
    if s == [] then 0 else Count(s[..|s| - 1], p) + (if p(s[|s| - 1]) then 1 else 0)
  }

  /** The positions of `s` whose element satisfies `p`. */
  ghost function Positions<T>(s: seq<T>, p: T -> bool): set<int>
  {
    set k | 0 <= k < |s| && p(s[k])
  }

  /** `Count` agrees with the cardinality of the set of matching positions. */
  lemma {:induction false} CountIsCardinality<T>(s: seq<T>, p: T -> bool)
    ensures Count(s, p) == |Positions(s, p)|
  {
    if s != [] {
      var t := s[..|s| - 1];
      CountIsCardinality(t, p);
      var last := if p(s[|s| - 1]) then {|s| - 1} else {};
      forall k
        ensures k in Positions(s, p) <==> k in Positions(t, p) + last
      {
        if 0 <= k < |t| {
          assert s[k] == t[k];
        }
      }
      assert Positions(s, p) == Positions(t, p) + last;
      assert |Positions(t, p) + last| == |Positions(t, p)| + |last|;
    }
  }

  /** Counting over a concatenation adds up. */
  lemma {:induction false} CountAppend<T>(s: seq<T>, t: seq<T>, p: T -> bool)
    ensures Count(s + t, p) == Count(s, p) + Count(t, p)
  {
    if t != [] {
      var u := t[..|t| - 1];
      assert (s + t)[..|s + t| - 1] == s + u;
      CountAppend(s, u, p);
    } else {
      assert s + t == s;
    }
  }

  predicate IsNewline(c: char) { c == '\n' }

  /** Number of '\n' characters of `text`, the quantity `Size_count` returns. */
  function Newlines(text: string): nat
  {
    Count(text, IsNewline)
  }

  /** The newline count is the multiplicity of '\n' in the text. */
  lemma {:induction false} NewlinesIsMultiplicity(text: string)
    ensures Newlines(text) == multiset(text)['\n']
  {
    if text != [] {
      var t := text[..|text| - 1];
      assert text == t + [text[|text| - 1]];
      NewlinesIsMultiplicity(t);
    }
  }

  /**
   * `Size_count`: reads the text one character at a time and counts the
   * newlines.
   */
  method SizeCount(text: string) returns (n: nat)
    ensures n == Newlines(text)
    ensures n == multiset(text)['\n']
  {
    n := 0;
    var i := 0;
    while i < |text|
      invariant 0 <= i <= |text|
      invariant n == Count(text[..i], IsNewline)
    {
      assert text[..i + 1][..i] == text[..i];
      if text[i] == '\n' {
        n := n + 1;
      }
      i := i + 1;
    }
    assert text[..|text|] == text;
    NewlinesIsMultiplicity(text);
  }

  /** C `strlen`: the length of the prefix of `s` before its first NUL. */
  function StrLen(s: string): (r: nat)
    ensures r <= |s|
    ensures forall k :: 0 <= k < r ==> s[k] != '\0'
    ensures r < |s| ==> s[r] == '\0'
  {
    if s == [] || s[0] == '\0' then 0 else 1 + StrLen(s[1..])
  }

  /** The test of `count_matrix_size` in the 4_kadai and 5_kadai programs. */
  predicate LongLine(line: string) { StrLen(line) > 1 }

  /**
   * The test of `count_matrix_size` in the packed solver: the first character
   * is neither '\n' nor the terminating NUL.
   */
  predicate NonBlankLine(line: string)
  {
    |line| > 0 && line[0] != '\n' && line[0] != '\0'
  }

  /**
   * `count_matrix_size` of the 4_kadai and 5_kadai programs: the number of
   * lines whose `strlen` exceeds 1, so a line holding only '\n' is skipped.
   */
  method CountLongLines(lines: seq<string>) returns (size: nat)
    ensures size == Count(lines, LongLine)
    ensures size == |Positions(lines, LongLine)|
  {
    size := 0;
    var i := 0;
    while i < |lines|
      invariant 0 <= i <= |lines|
      invariant size == Count(lines[..i], LongLine)
    {
      assert lines[..i + 1][..i] == lines[..i];
      if StrLen(lines[i]) > 1 {
        size := size + 1;
      }
      i := i + 1;
    }
    assert lines[..|lines|] == lines;
    CountIsCardinality(lines, LongLine);
  }

  /**
   * `count_matrix_size` of the packed solver: the number of lines whose first
   * character is not '\n' (nor NUL).
   */
  method CountNonBlankLines(lines: seq<string>) returns (n: nat)
    ensures n == Count(lines, NonBlankLine)
    ensures n == |Positions(lines, NonBlankLine)|
  {
    n := 0;
    var i := 0;
    while i < |lines|
      invariant 0 <= i <= |lines|
      invariant n == Count(lines[..i], NonBlankLine)
    {
      assert lines[..i + 1][..i] == lines[..i];
      if |lines[i]| > 0 && lines[i][0] != '\n' && lines[i][0] != '\0' {
        n := n + 1;
      }
      i := i + 1;
    }
    assert lines[..|lines|] == lines;
    CountIsCardinality(lines, NonBlankLine);
  }

  /**
   * The two line tests differ on a last line that has one character and no
   * newline: the packed solver counts it, the other two programs do not.
   */
  lemma LastLineWithoutNewline()
    ensures NonBlankLine("5") && !LongLine("5")
    ensures LongLine("5\n") && NonBlankLine("5\n")
    ensures !LongLine("\n") && !NonBlankLine("\n")
  {
    assert "5"[1..] == [];
    assert "5\n"[1..] == "\n";
    assert "\n"[1..] == [];
  }

  /** The delimiters `get_matrix_dimensions` hands to `strtok`. */
  predicate IsDelim(c: char) { c == ' ' || c == '\t' || c == '\n' }

  /** Whether position `k` of `s` starts a token: a non-delimiter after a delimiter or at the start. */
  predicate TokenStart(s: string, k: int)
    requires 0 <= k < |s|
  {
    !IsDelim(s[k]) && (k == 0 || IsDelim(s[k - 1]))
  }

  /** The number of maximal runs of non-delimiters in `s` (no NUL handling). */
  function Tokens(s: string): nat
  {
    if s == [] then 0 else Tokens(s[..|s| - 1]) + (if TokenStart(s, |s| - 1) then 1 else 0)
  }

  /** The number of tokens `strtok` yields on a C string: those before the first NUL. */
  function TokenCount(line: string): nat
  {
    Tokens(line[..StrLen(line)])
  }

  /** `Tokens` counts exactly the token starts. */
  lemma {:induction false} TokensAreTokenStarts(s: string)
    ensures Tokens(s) == |set k | 0 <= k < |s| && TokenStart(s, k)|
  {
    if s != [] {
      var t := s[..|s| - 1];
      TokensAreTokenStarts(t);
      var ts := set k | 0 <= k < |t| && TokenStart(t, k);
      var ss := set k | 0 <= k < |s| && TokenStart(s, k);
      assert forall k :: 0 <= k < |t| ==> (TokenStart(t, k) <==> TokenStart(s, k));
      if TokenStart(s, |s| - 1) {
        assert ss == ts + {|s| - 1};
      } else {
        assert ss == ts;
      }
    }
  }

  /** Joining two texts with a delimiter adds their token counts. */
  lemma {:induction false} TokensJoin(s: string, d: char, t: string)
    requires IsDelim(d)
    ensures Tokens(s + [d] + t) == Tokens(s) + Tokens(t)
  {
    if t == [] {
      assert (s + [d] + t)[..|s + [d] + t| - 1] == s;
    } else {
      var u := t[..|t| - 1];
      var w := s + [d] + t;
      assert w[..|w| - 1] == s + [d] + u;
      TokensJoin(s, d, u);
      assert TokenStart(w, |w| - 1) == TokenStart(t, |t| - 1);
    }
  }

  /** What one `fscanf(file, "%lf", ...)` meets next: a number, or text that is not one. */
  datatype Token = Number(value: real) | Junk

  /** The first `count` tokens are all numbers. */
  ghost predicate NumbersFirst(tokens: seq<Token>, count: nat)
  {
    count <= |tokens| && forall k :: 0 <= k < count ==> tokens[k].Number?
  }

  /** The numbers at the head of `tokens` are exactly the first `size`. */
  ghost predicate NumberRun(tokens: seq<Token>, size: nat)
  {
    NumbersFirst(tokens, size) && (size < |tokens| ==> !tokens[size].Number?)
  }

  /** The values of the first `count` tokens. */
  ghost function Values(tokens: seq<Token>, count: nat): (v: seq<real>)
    requires NumbersFirst(tokens, count)
    ensures |v| == count && forall k :: 0 <= k < count ==> v[k] == tokens[k].value
  {
    seq(count, k requires 0 <= k < count => tokens[k].value)
  }

  /** A stream has one leading run of numbers. */
  lemma NumberRunUnique(tokens: seq<Token>, a: nat, b: nat)
    requires NumberRun(tokens, a) && NumberRun(tokens, b)
    ensures a == b
  {
  }
}

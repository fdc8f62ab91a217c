/**
 * Word codec of the Wordle environment: a word is a sequence of letter
 * codes, 0 for 'a' up to 25 for 'z'. `EncodeToStr` turns codes back into a
 * string; `StrToEncode` turns the lines of the word list into code tuples.
 */
module Codec {

  /** True when every code names a lower-case letter, 0 ('a') to 25 ('z'). */
  predicate IsLetters(enc: seq<int>) {
    forall i :: 0 <= i < |enc| ==> 0 <= enc[i] < 26
  }

  predicate IsLower(s: string) {
    forall i :: 0 <= i < |s| ==> 'a' <= s[i] <= 'z'
  }

  /** chr(ord('a') + n) */
  function Chr(n: int): (c: char)
    requires 0 <= n < 26
    ensures 'a' <= c <= 'z' && c as int - 97 == n
  {
    (97 + n) as char
  }

  /** ord(c) - 97, for any character (the word list is not checked to be lower case) */
  function Ord(c: char): (n: int)
    ensures 'a' <= c <= 'z' ==> 0 <= n < 26 && Chr(n) == c
  {
    c as int - 97
  }

  /** The string spelled by a sequence of letter codes. */
  function ToStr(enc: seq<int>): (s: string)
    requires IsLetters(enc)
    ensures |s| == |enc| && IsLower(s)
    ensures forall i :: 0 <= i < |enc| ==> s[i] as int - 97 == enc[i]
  {
    if enc == [] then "" else ToStr(enc[..|enc| - 1]) + [Chr(enc[|enc| - 1])]
  }

  /** The codes of a string, one `ord(c) - 97` per character. */
  function FromStr(s: string): (enc: seq<int>)
    ensures |enc| == |s|
    ensures IsLower(s) ==> IsLetters(enc)
  {
    seq(|s|, i requires 0 <= i < |s| => Ord(s[i]))
  }

  lemma FromStrToStr(enc: seq<int>)
    requires IsLetters(enc)
    ensures FromStr(ToStr(enc)) == enc
  {
  }

  lemma ToStrFromStr(s: string)
    requires IsLower(s)
    ensures IsLetters(FromStr(s)) && ToStr(FromStr(s)) == s
  {
  }

  /**
   * The encoding loop of `encodeToStr`: the string grows by one character per code.
   */
  method EncodeToStr(encoding: seq<int>) returns (s: string)
    requires IsLetters(encoding)
    ensures s == ToStr(encoding)
  {
    s := "";
    for k := 0 to |encoding|
      invariant s == ToStr(encoding[..k])
    {
      assert encoding[..k + 1][..k] == encoding[..k];
      s := s + [Chr(encoding[k])];
    }
    assert encoding[..|encoding|] == encoding;
  }

  /** Python's str.isspace() for one character, by Unicode code point. */
  predicate IsSpace(c: char) {
    var n := c as int;
    (9 <= n <= 13) || (28 <= n <= 32) || n == 0x85 || n == 0xA0 || n == 0x1680
    || (0x2000 <= n <= 0x200A) || n == 0x2028 || n == 0x2029 || n == 0x202F
    || n == 0x205F || n == 0x3000
  }

  /** `s` without its leading whitespace. */
  function StripLeading(s: string): string {
    if s != [] && IsSpace(s[0]) then StripLeading(s[1..]) else s
  }

  /** `s` without its trailing whitespace. */
  function StripTrailing(s: string): string {
    if s != [] && IsSpace(s[|s| - 1]) then StripTrailing(s[..|s| - 1]) else s
  }

  lemma {:induction false} StripLeadingSpec(s: string)
    ensures |StripLeading(s)| <= |s| && StripLeading(s) == s[|s| - |StripLeading(s)|..]
    ensures StripLeading(s) == [] || !IsSpace(StripLeading(s)[0])
    ensures forall i :: 0 <= i < |s| - |StripLeading(s)| ==> IsSpace(s[i])
  {
    if s != [] && IsSpace(s[0]) {
      var t := s[1..];
      StripLeadingSpec(t);
      var r := StripLeading(t);
      assert StripLeading(s) == r;
      assert s[|s| - |r|..] == t[|t| - |r|..];
      forall i | 0 <= i < |s| - |r| ensures IsSpace(s[i]) {
        if i > 0 {
          assert s[i] == t[i - 1];
        }
      }
    }
  }

  lemma {:induction false} StripTrailingSpec(s: string)
    ensures |StripTrailing(s)| <= |s| && StripTrailing(s) == s[..|StripTrailing(s)|]
    ensures StripTrailing(s) == [] || !IsSpace(StripTrailing(s)[|StripTrailing(s)| - 1])
    ensures forall i :: |StripTrailing(s)| <= i < |s| ==> IsSpace(s[i])
  {
    if s != [] && IsSpace(s[|s| - 1]) {
      var t := s[..|s| - 1];
      StripTrailingSpec(t);
      var r := StripTrailing(t);
      assert StripTrailing(s) == r;
      assert s[..|r|] == t[..|r|];
      forall i | |r| <= i < |s| ensures IsSpace(s[i]) {
        if i < |s| - 1 {
          assert s[i] == t[i];
        }
      }
    }
  }

  /** Python's `line.strip()`: `s` with the whitespace at both ends removed. */
  function Strip(s: string): (r: string)
    ensures |r| <= |s|
  {
    StripLeadingSpec(s);
    StripTrailingSpec(StripLeading(s));
    StripTrailing(StripLeading(s))
  }

  /** The stripped string neither starts nor ends with whitespace. */
  lemma StripEnds(s: string)
    ensures Strip(s) == [] || (!IsSpace(Strip(s)[0]) && !IsSpace(Strip(s)[|Strip(s)| - 1]))
  {
    var t := StripLeading(s);
    StripLeadingSpec(s);
    StripTrailingSpec(t);
    if Strip(s) != [] {
      assert Strip(s)[0] == t[0];
    }
  }

  /** The stripped string is a slice of `s`, and only whitespace is cut on either side. */
  lemma StripSlice(s: string)
    ensures exists a {:trigger s[a..]} :: 0 <= a <= |s| - |Strip(s)| && Strip(s) <= s[a..]
              && (forall i :: 0 <= i < a ==> IsSpace(s[i]))
              && (forall i :: a + |Strip(s)| <= i < |s| ==> IsSpace(s[i]))
  {
    var t := StripLeading(s);
    StripLeadingSpec(s);
    StripTrailingSpec(t);
    var r := StripTrailing(t);
    var a := |s| - |t|;
    assert t == s[a..];
    assert r <= t;
    forall i | a + |r| <= i < |s| ensures IsSpace(s[i]) {
      assert s[i] == t[i - a];
    }
  }

  /** A string without whitespace at its ends is left as it is. */
  lemma StripClean(s: string)
    requires s == [] || (!IsSpace(s[0]) && !IsSpace(s[|s| - 1]))
    ensures Strip(s) == s
  {
  }

  /** The assertion `strToEncode` makes about each line. */
  predicate LineOk(line: string) {
    |Strip(line)| == 5
  }

  /** The tuple `strToEncode` appends for one line. */
  function EncodeLine(line: string): (enc: seq<int>)
    ensures |enc| == |Strip(line)|
    ensures LineOk(line) ==> |enc| == 5
  {
    FromStr(Strip(line))
  }

  /**
   * Outcome of encoding a word list: the code tuples, one per line, or the
   * index of the first line whose stripped length is not 5 (where the
   * source's assertion fails).
   */
  datatype Encoded = Words(words: seq<seq<int>>) | BadLine(index: nat)

  /** The word list read line by line, in order, stopping at the first bad line. */
  function EncodeLines(lines: seq<string>): (r: Encoded)
    ensures r.Words? <==> forall i :: 0 <= i < |lines| ==> LineOk(lines[i])
    ensures r.Words? ==> |r.words| == |lines|
                         && forall i :: 0 <= i < |lines| ==> r.words[i] == EncodeLine(lines[i])
    ensures r.BadLine? ==> r.index < |lines| && !LineOk(lines[r.index])
                           && forall i :: 0 <= i < r.index ==> LineOk(lines[i])
  {
    if lines == [] then Words([])
    else
      var n := |lines| - 1;
      var prefix := lines[..n];
      assert forall i :: 0 <= i < n ==> prefix[i] == lines[i];
      match EncodeLines(prefix)
      case BadLine(k) => BadLine(k)
      case Words(ws) => if LineOk(lines[n]) then Words(ws + [EncodeLine(lines[n])]) else BadLine(n)
  }

  /**
   * `strToEncode`: the accumulator loop over the lines of the word list.
   */
  method StrToEncode(lines: seq<string>) returns (r: Encoded)
    ensures r == EncodeLines(lines)
  {
    var encoding: seq<seq<int>> := [];
    for k := 0 to |lines|
      invariant EncodeLines(lines[..k]) == Words(encoding)
    {
      assert lines[..k + 1][..k] == lines[..k];
      if |Strip(lines[k])| != 5 {
        assert forall i :: 0 <= i < k ==> lines[..k][i] == lines[i];
        return BadLine(k);
      }
      encoding := encoding + [FromStr(Strip(lines[k]))];
    }
    assert lines[..|lines|] == lines;
    r := Words(encoding);
  }

  /**
   * Round trip through the word list: the tuple read from a lower-case line
   * spells that line without its surrounding whitespace.
   */
  lemma DecodeEncodedLine(lines: seq<string>, i: nat)
    requires EncodeLines(lines).Words? && i < |lines| && IsLower(Strip(lines[i]))
    ensures IsLetters(EncodeLines(lines).words[i])
    ensures ToStr(EncodeLines(lines).words[i]) == Strip(lines[i])
  {
    ToStrFromStr(Strip(lines[i]));
  }

  /** The other round trip: a five-letter word written as a line reads back as itself. */
  lemma EncodeDecodedWord(w: seq<int>)
    requires |w| == 5 && IsLetters(w)
    ensures EncodeLines([ToStr(w)]) == Words([w])
  {
    var s := ToStr(w);
    assert !IsSpace(s[0]) && !IsSpace(s[4]);
    StripClean(s);
    FromStrToStr(w);
  }

  /** The first two entries of the shipped word list. */
  lemma WordListExample()
    ensures EncodeLines(["aback\n", "abase\n"]) == Words([[0, 1, 0, 2, 10], [0, 1, 0, 18, 4]])
  {
    assert Strip("aback\n") == "aback" by {
      assert StripLeading("aback\n") == "aback\n";
      assert StripTrailing("aback\n") == StripTrailing("aback");
    }
    assert Strip("abase\n") == "abase" by {
      assert StripLeading("abase\n") == "abase\n";
      assert StripTrailing("abase\n") == StripTrailing("abase");
    }
    assert EncodeLine("aback\n") == [0, 1, 0, 2, 10];
    assert EncodeLine("abase\n") == [0, 1, 0, 18, 4];
    var lines := ["aback\n", "abase\n"];
    assert lines[..1] == ["aback\n"] && lines[..1][..0] == [];
  }
}

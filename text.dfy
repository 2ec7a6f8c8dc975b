/** The string operations of java.lang.String and java.util.regex that the core
    relies on, over `seq<char>`. Regex character classes follow Java's defaults:
    `\w`, `\d`, `\s` and `(?i)` are ASCII-only unless a flag says otherwise, and
    none of the core's patterns sets one. */
module Text {

  // ---------------------------------------------------------------------------
  // Character classes

  predicate IsAsciiDigit(c: char) { '0' <= c <= '9' }
  predicate IsAsciiUpper(c: char) { 'A' <= c <= 'Z' }
  predicate IsAsciiLower(c: char) { 'a' <= c <= 'z' }
  predicate IsAsciiLetter(c: char) { IsAsciiUpper(c) || IsAsciiLower(c) }

  /** `\w`: [a-zA-Z_0-9]. A Cyrillic letter is not a word character. */
  predicate IsWordChar(c: char) { IsAsciiLetter(c) || IsAsciiDigit(c) || c == '_' }

  /** `\s`: [ \t\n\x0B\f\r]. */
  predicate IsSpace(c: char) {
    c == ' ' || c == '\t' || c == '\n' || c == '\U{B}' || c == '\U{C}' || c == '\r'
  }

  /** Case mapping of one character, restricted to ASCII. */
  function LowerChar(c: char): (d: char)
    ensures !IsAsciiUpper(d)
    ensures IsAsciiLetter(c) <==> IsAsciiLetter(d)
    ensures IsWordChar(c) <==> IsWordChar(d)
    ensures IsAsciiDigit(c) <==> IsAsciiDigit(d)
    ensures IsSpace(c) <==> IsSpace(d)
    ensures !IsAsciiUpper(c) ==> d == c
  {
    if IsAsciiUpper(c) then (c as int + 32) as char else c
  }

  /** `String.toLowerCase()` on the ASCII range. */
  function ToLower(s: string): (r: string)
    ensures |r| == |s|
    ensures forall i | 0 <= i < |s| :: r[i] == LowerChar(s[i])
  {
    seq(|s|, i requires 0 <= i < |s| => LowerChar(s[i]))
  }

  lemma ToLowerSlices(s: string, i: nat, j: nat)
    requires i <= j <= |s|
    ensures ToLower(s)[i..j] == ToLower(s[i..j])
    ensures ToLower(s)[i..] == ToLower(s[i..])
    ensures ToLower(s)[..j] == ToLower(s[..j])
  {
  }

  /** `s.trim().isEmpty()`: trim removes every character up to U+0020. */
  predicate IsBlank(s: string) {
    forall i | 0 <= i < |s| :: s[i] <= ' '
  }

  predicate StartsWith(s: string, prefix: string) {
    |prefix| <= |s| && s[..|prefix|] == prefix
  }

  // ---------------------------------------------------------------------------
  // replaceAll("\\d", "") and replaceAll("\\W", "")

  function RemoveDigits(s: string): (r: string)
    ensures |r| <= |s|
    ensures forall i | 0 <= i < |r| :: !IsAsciiDigit(r[i]) && r[i] in s
  {
    if s == [] then []
    else (if IsAsciiDigit(s[0]) then [] else [s[0]]) + RemoveDigits(s[1..])
  }

  function RemoveNonWord(s: string): (r: string)
    ensures |r| <= |s|
    ensures forall i | 0 <= i < |r| :: IsWordChar(r[i]) && r[i] in s
  {
    if s == [] then []
    else (if IsWordChar(s[0]) then [s[0]] else []) + RemoveNonWord(s[1..])
  }

  /** The characters of `s` that `keep` accepts, in order. */
  function Filter(s: string, keep: char -> bool): (r: string)
    ensures |r| <= |s|
    ensures forall c :: c in r <==> c in s && keep(c)
    decreases |s|
  {
    if s == [] then []
    else
      assert s == [s[0]] + s[1..];
      (if keep(s[0]) then [s[0]] else []) + Filter(s[1..], keep)
  }

  /** The filter keeps every occurrence of a kept character and none of the
      others. */
  lemma {:induction false} FilterCounts(s: string, keep: char -> bool)
    ensures forall c :: multiset(Filter(s, keep))[c] == if keep(c) then multiset(s)[c] else 0
    decreases |s|
  {
    if s != [] {
      FilterCounts(s[1..], keep);
      assert s == [s[0]] + s[1..];
    }
  }

  /** A character a lemma keeps: a word character that is not a digit. */
  predicate IsLemmaChar(c: char) { IsWordChar(c) && !IsAsciiDigit(c) }

  /** Removing the digits and then the non-word characters keeps exactly the
      lemma characters, in order. */
  lemma {:induction false} RemoveDigitsThenNonWord(s: string)
    ensures RemoveNonWord(RemoveDigits(s)) == Filter(s, IsLemmaChar)
    decreases |s|
  {
    if s != [] {
      RemoveDigitsThenNonWord(s[1..]);
      var rest := RemoveDigits(s[1..]);
      var tail := Filter(s[1..], IsLemmaChar);
      assert RemoveNonWord(rest) == tail;
      if IsAsciiDigit(s[0]) {
        assert RemoveDigits(s) == rest;
        assert Filter(s, IsLemmaChar) == tail;
      } else {
        var d := [s[0]] + rest;
        assert RemoveDigits(s) == d;
        assert d[0] == s[0] && d[1..] == rest;
        assert RemoveNonWord(d) == (if IsWordChar(s[0]) then [s[0]] else []) + tail;
        assert Filter(s, IsLemmaChar) == (if IsLemmaChar(s[0]) then [s[0]] else []) + tail;
      }
    }
  }

  lemma {:induction false} RemoveDigitsAppend(a: string, b: string)
    ensures RemoveDigits(a + b) == RemoveDigits(a) + RemoveDigits(b)
  {
    if a == [] {
      assert a + b == b;
    } else {
      assert (a + b)[0] == a[0];
      assert (a + b)[1..] == a[1..] + b;
      RemoveDigitsAppend(a[1..], b);
    }
  }

  /** A string without digits is left as it is. */
  lemma {:induction false} RemoveDigitsNoDigits(s: string)
    requires forall i | 0 <= i < |s| :: !IsAsciiDigit(s[i])
    ensures RemoveDigits(s) == s
  {
    if s != [] {
      RemoveDigitsNoDigits(s[1..]);
    }
  }

  /** A digit between two pieces of a word is deleted and the pieces are joined:
      "ab1cd" becomes "abcd". */
  lemma DigitsInsideAreJoined(a: string, d: char, b: string)
    requires IsAsciiDigit(d)
    ensures RemoveDigits(a + [d] + b) == RemoveDigits(a) + RemoveDigits(b)
  {
    RemoveDigitsAppend(a + [d], b);
    RemoveDigitsAppend(a, [d]);
    assert RemoveDigits([d]) == [] by {
      assert [d][1..] == [];
    }
  }

  // ---------------------------------------------------------------------------
  // String.split(regex) for the patterns "\\W+", "[,\\s]+" and "\\s+"

  /** The character classes whose runs the core splits on. */
  datatype Separators = NonWord | CommaOrSpace | Space

  predicate IsSeparator(k: Separators, c: char) {
    match k
    case NonWord => !IsWordChar(c)
    case CommaOrSpace => c == ',' || IsSpace(c)
    case Space => IsSpace(c)
  }

  predicate HasSeparator(s: string, k: Separators) {
    exists i | 0 <= i < |s| :: IsSeparator(k, s[i])
  }

  predicate AllSeparators(s: string, k: Separators) {
    forall i | 0 <= i < |s| :: IsSeparator(k, s[i])
  }

  function Flush(cur: string): seq<string> {
    if cur == [] then [] else [cur]
  }

  /** The maximal runs of non-separator characters of `cur + s`, in order, where
      `cur` is the run read so far. */
  function Runs(s: string, k: Separators, cur: string): seq<string>
    decreases |s|
  {
    if s == [] then Flush(cur)
    else if IsSeparator(k, s[0]) then Flush(cur) + Runs(s[1..], k, [])
    else Runs(s[1..], k, cur + [s[0]])
  }

  /** Java's `s.split(regex)` for a regex matching runs of separators: the text
      between separator runs, a leading "" when `s` starts with a separator, and
      trailing empty strings removed; `[s]` itself when nothing matches. */
  function Split(s: string, k: Separators): seq<string>
  {
    if !HasSeparator(s, k) then [s]
    else
      var runs := Runs(s, k, []);
      if runs == [] then []
      else (if IsSeparator(k, s[0]) then [""] else []) + runs
  }

  lemma {:induction false} RunsShape(s: string, k: Separators, cur: string)
    requires forall c | c in cur :: !IsSeparator(k, c)
    ensures forall t | t in Runs(s, k, cur) ::
      t != [] && forall c | c in t :: !IsSeparator(k, c) && (c in s || c in cur)
  {
    if s == [] {
    } else if IsSeparator(k, s[0]) {
      RunsShape(s[1..], k, []);
    } else {
      RunsShape(s[1..], k, cur + [s[0]]);
    }
  }

  lemma {:induction false} RunsEmpty(s: string, k: Separators, cur: string)
    ensures Runs(s, k, cur) == [] <==> cur == [] && AllSeparators(s, k)
  {
    if s == [] {
    } else if IsSeparator(k, s[0]) {
      RunsEmpty(s[1..], k, []);
      assert AllSeparators(s, k) <==> AllSeparators(s[1..], k) by {
        if AllSeparators(s[1..], k) {
          forall i | 0 <= i < |s| ensures IsSeparator(k, s[i]) {
            if i > 0 { assert s[i] == s[1..][i - 1]; }
          }
        }
      }
    } else {
      RunsEmpty(s[1..], k, cur + [s[0]]);
    }
  }

  /** Every piece of a split is made of characters of the input and holds no
      separator; only the first piece can be empty, and only when the input is
      empty or starts with a separator. */
  lemma SplitPieces(s: string, k: Separators)
    ensures forall t | t in Split(s, k) ::
      forall c | c in t :: c in s && !IsSeparator(k, c)
    ensures forall i | 0 < i < |Split(s, k)| :: Split(s, k)[i] != []
    ensures |Split(s, k)| > 0 && Split(s, k)[0] == [] ==>
      s == [] || IsSeparator(k, s[0])
  {
    RunsShape(s, k, []);
    if HasSeparator(s, k) {
      var runs := Runs(s, k, []);
      if runs != [] {
        assert runs[0] in runs;
        if IsSeparator(k, s[0]) {
          assert Split(s, k) == [""] + runs;
          forall i | 0 < i < |Split(s, k)| ensures Split(s, k)[i] != [] {
            assert Split(s, k)[i] == runs[i - 1];
            assert runs[i - 1] in runs;
          }
        } else {
          assert Split(s, k) == runs;
          forall i | 0 < i < |runs| ensures runs[i] != [] {
            assert runs[i] in runs;
          }
        }
      }
    }
  }

  /** A text that starts with a separator but is not made only of separators
      splits into a leading empty piece followed by the rest. */
  lemma SplitLeadingSeparator(s: string, k: Separators)
    requires |s| > 0 && IsSeparator(k, s[0]) && !AllSeparators(s, k)
    ensures |Split(s, k)| > 1 && Split(s, k)[0] == ""
  {
    assert HasSeparator(s, k);
    RunsEmpty(s, k, []);
  }

  /** A text made only of separators splits into no piece at all. */
  lemma SplitAllSeparators(s: string, k: Separators)
    requires |s| > 0 && AllSeparators(s, k)
    ensures Split(s, k) == []
  {
    assert IsSeparator(k, s[0]);
    RunsEmpty(s, k, []);
  }

  // ---------------------------------------------------------------------------
  // indexOf, contains, lastIndexOf

  predicate OccursAt(s: string, w: string, i: int) {
    0 <= i && i + |w| <= |s| && s[i..i + |w|] == w
  }

  /** `s.indexOf(w, from)`. */
  function IndexOf(s: string, w: string, from: nat): (r: int)
    ensures r == -1 || (from <= r && OccursAt(s, w, r))
    ensures r == -1 ==> forall j | from <= j :: !OccursAt(s, w, j)
    ensures r != -1 ==> forall j | from <= j < r :: !OccursAt(s, w, j)
    decreases |s| - from
  {
    if from + |w| > |s| then -1
    else if s[from..from + |w|] == w then from
    else IndexOf(s, w, from + 1)
  }

  /** `s.contains(w)`: `indexOf(w) >= 0`. */
  predicate Contains(s: string, w: string)
  {
    IndexOf(s, w, 0) != -1
  }

  /** `s.lastIndexOf(c)`. */
  function LastIndexOf(s: string, c: char): (r: int)
    ensures -1 <= r < |s|
    ensures r >= 0 ==> s[r] == c && forall j | r < j < |s| :: s[j] != c
    ensures r == -1 ==> c !in s
  {
    if s == [] then -1
    else if s[|s| - 1] == c then |s| - 1
    else LastIndexOf(s[..|s| - 1], c)
  }

  // ---------------------------------------------------------------------------
  // Counting non-overlapping occurrences, left to right

  /** The number of matches a left-to-right scan finds when each match resumes
      the scan right after itself. */
  function Count(s: string, w: string): nat
    requires |w| > 0
    decreases |s|
  {
    if |s| < |w| then 0
    else if s[..|w|] == w then 1 + Count(s[|w|..], w)
    else Count(s[1..], w)
  }

  /** Non-overlapping matches fit in the text: `Count(s, w) * |w| <= |s|`. */
  lemma {:induction false} CountBound(s: string, w: string)
    requires |w| > 0
    ensures Count(s, w) * |w| <= |s|
    decreases |s|
  {
    if |s| < |w| {
    } else if s[..|w|] == w {
      CountBound(s[|w|..], w);
      MulSucc(Count(s[|w|..], w), |w|);
    } else {
      CountBound(s[1..], w);
    }
  }

  lemma MulSucc(c: nat, n: nat)
    ensures (1 + c) * n == n + c * n
  {
  }

  /** The scan `indexOf` performs from `from`: no match means no occurrence left,
      a match at `i` accounts for one occurrence and the scan resumes at
      `i + |w|`. */
  lemma {:induction false} CountFromIndexOf(s: string, w: string, from: nat)
    requires |w| > 0 && from <= |s|
    ensures IndexOf(s, w, from) == -1 ==> Count(s[from..], w) == 0
    ensures IndexOf(s, w, from) != -1 ==>
      IndexOf(s, w, from) + |w| <= |s| &&
      Count(s[from..], w) == 1 + Count(s[IndexOf(s, w, from) + |w|..], w)
    decreases |s| - from
  {
    var t := s[from..];
    if from + |w| > |s| {
    } else if s[from..from + |w|] == w {
      assert t[..|w|] == w;
      assert t[|w|..] == s[from + |w|..];
    } else {
      assert t[..|w|] != w;
      assert t[1..] == s[from + 1..];
      CountFromIndexOf(s, w, from + 1);
    }
  }

  /** `contains` holds exactly when at least one occurrence is counted. */
  lemma ContainsIffCounted(s: string, w: string)
    requires |w| > 0
    ensures Contains(s, w) <==> Count(s, w) >= 1
  {
    CountFromIndexOf(s, w, 0);
    assert s[0..] == s;
  }

  // ---------------------------------------------------------------------------
  // replaceAll("(?i)" + w, rep) for a literal, non-empty w

  /** A left-to-right scan replacing each ASCII-case-insensitive match of `w`
      by `rep`, resuming after the match. */
  function ReplaceAllIgnoreCase(s: string, w: string, rep: string): string
    requires |w| > 0
    decreases |s|
  {
    if |s| < |w| then s
    else if ToLower(s[..|w|]) == ToLower(w) then rep + ReplaceAllIgnoreCase(s[|w|..], w, rep)
    else [s[0]] + ReplaceAllIgnoreCase(s[1..], w, rep)
  }

  /** Each replaced match is exactly an occurrence counted on the lowercased
      text, so the length changes by `|rep| - |w|` per occurrence. */
  lemma {:induction false} ReplaceAllLength(s: string, w: string, rep: string)
    requires |w| > 0
    ensures |ReplaceAllIgnoreCase(s, w, rep)| ==
      |s| + Count(ToLower(s), ToLower(w)) * (|rep| - |w|)
    decreases |s|
  {
    var ls, lw := ToLower(s), ToLower(w);
    var d := |rep| - |w|;
    if |s| < |w| {
    } else if ToLower(s[..|w|]) == lw {
      ToLowerSlices(s, |w|, |w|);
      assert ls[..|lw|] == lw;
      var rest := Count(ToLower(s[|w|..]), lw);
      assert Count(ls, lw) == 1 + rest;
      ReplaceAllLength(s[|w|..], w, rep);
      assert |ReplaceAllIgnoreCase(s, w, rep)| == |rep| + |s| - |w| + rest * d;
      assert (1 + rest) * d == d + rest * d;
    } else {
      ToLowerSlices(s, 1, |w|);
      assert ls[..|lw|] != lw;
      assert Count(ls, lw) == Count(ToLower(s[1..]), lw);
      ReplaceAllLength(s[1..], w, rep);
      assert |ReplaceAllIgnoreCase(s, w, rep)| == 1 + |ReplaceAllIgnoreCase(s[1..], w, rep)|;
    }
  }

  /** A text with no case-insensitive occurrence is left as it is. */
  lemma {:induction false} ReplaceAllNoMatch(s: string, w: string, rep: string)
    requires |w| > 0 && Count(ToLower(s), ToLower(w)) == 0
    ensures ReplaceAllIgnoreCase(s, w, rep) == s
    decreases |s|
  {
    var ls, lw := ToLower(s), ToLower(w);
    if |s| < |w| {
    } else {
      ToLowerSlices(s, 1, |w|);
      assert ls[..|lw|] != lw;
      ReplaceAllNoMatch(s[1..], w, rep);
    }
  }

  /** `s.replaceAll(regex, rep)` for a regex that matches only the empty string:
      `rep` goes before every character and at the end. */
  function ReplaceEmptyMatches(s: string, rep: string): (r: string)
    ensures |r| == |s| + (|s| + 1) * |rep|
  {
    if s == [] then rep else rep + [s[0]] + ReplaceEmptyMatches(s[1..], rep)
  }

  // ---------------------------------------------------------------------------
  // Stream.distinct()

  /** The elements of `s` in order of first occurrence. */
  function Distinct<T(==)>(s: seq<T>): seq<T>
  {
    if s == [] then []
    else
      var d := Distinct(s[..|s| - 1]);
      if s[|s| - 1] in d then d else d + [s[|s| - 1]]
  }

  predicate NoDuplicates<T(==)>(s: seq<T>) {
    forall i, j | 0 <= i < j < |s| :: s[i] != s[j]
  }

  /** `Distinct` keeps every element once and nothing else. */
  lemma {:induction false} DistinctSpec<T>(s: seq<T>)
    ensures forall x :: x in Distinct(s) <==> x in s
    ensures NoDuplicates(Distinct(s))
  {
    if s != [] {
      var init := s[..|s| - 1];
      DistinctSpec(init);
      assert s == init + [s[|s| - 1]];
    }
  }

  // ---------------------------------------------------------------------------
  // Integer.toString

  function DigitChar(d: nat): char
    requires d < 10
  {
    ('0' as int + d) as char
  }

  function NatToString(n: nat): (r: string)
    ensures |r| > 0
    ensures forall c | c in r :: IsAsciiDigit(c)
  {
    if n < 10 then [DigitChar(n)] else NatToString(n / 10) + [DigitChar(n % 10)]
  }

  function IntToString(i: int): string {
    if i < 0 then "-" + NatToString(-i) else NatToString(i)
  }
}

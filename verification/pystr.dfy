/** The parts of Python's `str` that the command builder relies on:
    `split()` with no argument, `replace` of one character, `lower().endswith`
    for an ASCII suffix, and `os.path.splitext` (POSIX flavour). */
module PyStr {

  /** `c.isspace()`: the code points Python treats as whitespace in `str.split()`. */
  predicate IsSpace(c: char) {
    var n := c as int;
    (0x09 <= n <= 0x0D) || (0x1C <= n <= 0x20) || n == 0x85 || n == 0xA0 || n == 0x1680
    || (0x2000 <= n <= 0x200A) || n == 0x2028 || n == 0x2029 || n == 0x202F
    || n == 0x205F || n == 0x3000
  }

  /** A token `split()` can produce: non-empty and free of whitespace. */
  predicate IsWord(w: string) {
    w != [] && forall i :: 0 <= i < |w| ==> !IsSpace(w[i])
  }

  predicate AllWords(ws: seq<string>) {
    forall i :: 0 <= i < |ws| ==> IsWord(ws[i])
  }

  /** Length of the longest whitespace-free prefix of `s`. */
  function WordLength(s: string): (n: nat)
    ensures n <= |s|
    ensures forall i :: 0 <= i < n ==> !IsSpace(s[i])
    ensures n < |s| ==> IsSpace(s[n])
  {
    if s == [] || IsSpace(s[0]) then 0 else 1 + WordLength(s[1..])
  }

  /** `s.split()`: the maximal runs of non-whitespace characters, in order. */
  function Split(s: string): (words: seq<string>)
    ensures AllWords(words)
    decreases |s|
  {
    if s == [] then []
    else if IsSpace(s[0]) then Split(s[1..])
    else
      var n := WordLength(s);
      [s[..n]] + Split(s[n..])
  }

  /** `" ".join(ws)` */
  function JoinSpaces(ws: seq<string>): string {
    if ws == [] then []
    else if |ws| == 1 then ws[0]
    else ws[0] + " " + JoinSpaces(ws[1..])
  }

  /** `"".join(ws)` */
  function Concat(ws: seq<string>): string {
    if ws == [] then [] else ws[0] + Concat(ws[1..])
  }

  /** The characters of `s` that are not whitespace, in order. */
  function NonSpace(s: string): string {
    if s == [] then [] else (if IsSpace(s[0]) then [] else [s[0]]) + NonSpace(s[1..])
  }

  /** A string whose only whitespace is single spaces between words. */
  predicate Normalized(s: string) {
    && (forall i :: 0 <= i < |s| && IsSpace(s[i]) ==> s[i] == ' ')
    && (|s| > 0 ==> s[0] != ' ' && s[|s| - 1] != ' ')
    && (forall i :: 0 <= i < |s| - 1 && s[i] == ' ' ==> s[i + 1] != ' ')
  }

  /** `s.replace(a, b)` for single characters. */
  function ReplaceChar(s: string, a: char, b: char): (r: string)
    ensures |r| == |s|
    ensures forall i :: 0 <= i < |s| ==> r[i] == (if s[i] == a then b else s[i])
  {
    if s == [] then [] else [if s[0] == a then b else s[0]] + ReplaceChar(s[1..], a, b)
  }

  /** `c.lower()` on ASCII letters; every other character is left alone. */
  function AsciiLower(c: char): char {
    if 'A' <= c <= 'Z' then (c as int + 32) as char else c
  }

  /** Lowering maps no character to `.` or `/` but the character itself. */
  lemma AsciiLowerPunctuation(c: char)
    ensures AsciiLower(c) == '.' <==> c == '.'
    ensures AsciiLower(c) == '/' <==> c == '/'
  {
  }

  /** `s.lower().endswith(suffix)` for a lower-case ASCII `suffix`. */
  predicate EndsWithIgnoreCase(s: string, suffix: string) {
    |s| >= |suffix| && forall i :: 0 <= i < |suffix| ==> AsciiLower(s[|s| - |suffix| + i]) == suffix[i]
  }

  /** Index of the last `c` in `s`, or -1 (`s.rfind(c)`). */
  function LastIndexOf(s: string, c: char): (i: int)
    ensures -1 <= i < |s|
    ensures i >= 0 ==> s[i] == c
    ensures forall j :: i < j < |s| ==> s[j] != c
  {
    if s == [] then -1
    else if s[|s| - 1] == c then |s| - 1
    else LastIndexOf(s[..|s| - 1], c)
  }

  /** `os.path.splitext(p)` has a non-empty extension: the last dot comes after the
      last separator and is preceded, within the last component, by a character
      other than a dot (leading dots do not start an extension). */
  predicate HasExtension(p: string) {
    var sep := LastIndexOf(p, '/');
    var dot := LastIndexOf(p, '.');
    dot > sep && !AllDots(p[sep + 1..dot])
  }

  predicate AllDots(s: string) {
    forall i :: 0 <= i < |s| ==> s[i] == '.'
  }

  /** `os.path.splitext(p)`: the pair (root, extension). */
  function SplitExt(p: string): (string, string) {
    if HasExtension(p) then
      var dot := LastIndexOf(p, '.');
      (p[..dot], p[dot..])
    else (p, [])
  }

  // ---------------------------------------------------------------- lemmas

  /** The whitespace-free prefix of a word is the whole word. */
  lemma WordLengthOfWord(w: string, rest: string)
    requires IsWord(w)
    requires rest == [] || IsSpace(rest[0])
    ensures WordLength(w + rest) == |w|
  {
    var s := w + rest;
    assert forall i :: 0 <= i < |w| ==> s[i] == w[i];
    assert rest != [] ==> s[|w|] == rest[0];
  }

  lemma NonSpaceAppend(a: string, b: string)
    ensures NonSpace(a + b) == NonSpace(a) + NonSpace(b)
  {
    if a == [] {
      assert a + b == b;
    } else {
      assert (a + b)[1..] == a[1..] + b;
      NonSpaceAppend(a[1..], b);
    }
  }

  lemma NonSpaceOfWord(w: string)
    requires forall i :: 0 <= i < |w| ==> !IsSpace(w[i])
    ensures NonSpace(w) == w
  {
    if w != [] {
      NonSpaceOfWord(w[1..]);
    }
  }

  /** Concatenating the pieces of `s.split()` gives back every non-whitespace
      character of `s`, in order: splitting loses only whitespace. */
  lemma {:induction false} SplitKeepsText(s: string)
    ensures Concat(Split(s)) == NonSpace(s)
    decreases |s|
  {
    if s == [] {
    } else if IsSpace(s[0]) {
      SplitKeepsText(s[1..]);
    } else {
      var n := WordLength(s);
      assert s == s[..n] + s[n..];
      SplitKeepsText(s[n..]);
      NonSpaceAppend(s[..n], s[n..]);
      NonSpaceOfWord(s[..n]);
    }
  }

  lemma {:induction false} NonSpaceEmpty(s: string)
    ensures NonSpace(s) == [] <==> forall i :: 0 <= i < |s| ==> IsSpace(s[i])
  {
    if s != [] {
      NonSpaceEmpty(s[1..]);
      assert forall i :: 1 <= i < |s| ==> s[i] == s[1..][i - 1];
    }
  }

  lemma {:induction false} ConcatEmpty(ws: seq<string>)
    requires AllWords(ws)
    ensures Concat(ws) == [] <==> ws == []
  {
    if ws != [] {
      assert |Concat(ws)| >= |ws[0]| > 0;
    }
  }

  /** A string splits into nothing exactly when it is all whitespace. */
  lemma SplitEmpty(s: string)
    ensures Split(s) == [] <==> forall i :: 0 <= i < |s| ==> IsSpace(s[i])
  {
    SplitKeepsText(s);
    NonSpaceEmpty(s);
    ConcatEmpty(Split(s));
  }

  /** Splitting a whitespace character out of the middle of a string splits the
      two sides independently. */
  lemma {:induction false} SplitAtSpace(a: string, c: char, b: string)
    requires IsSpace(c)
    ensures Split(a + [c] + b) == Split(a) + Split(b)
    decreases |a|
  {
    var s := a + [c] + b;
    if a == [] {
      assert s[1..] == b;
    } else if IsSpace(a[0]) {
      assert s[1..] == a[1..] + [c] + b;
      SplitAtSpace(a[1..], c, b);
    } else {
      var n := WordLength(a);
      var w := a[..n];
      assert a == w + a[n..];
      assert IsWord(w);
      WordLengthOfWord(w, a[n..] + [c] + b);
      assert s == w + (a[n..] + [c] + b);
      assert s[..n] == w && s[n..] == a[n..] + [c] + b;
      SplitAtSpace(a[n..], c, b);
    }
  }

  /** Splitting words joined by single spaces gives back the words. */
  lemma {:induction false} SplitJoin(ws: seq<string>)
    requires AllWords(ws)
    ensures Split(JoinSpaces(ws)) == ws
    decreases |ws|
  {
    if ws == [] {
    } else if |ws| == 1 {
      WordLengthOfWord(ws[0], []);
      assert ws[0] + [] == ws[0];
      assert ws[0][|ws[0]|..] == [];
    } else {
      var w := ws[0];
      var rest := JoinSpaces(ws[1..]);
      assert JoinSpaces(ws) == w + [' '] + rest;
      SplitAtSpace(w, ' ', rest);
      SplitJoin([w]);
      SplitJoin(ws[1..]);
      assert [w] + ws[1..] == ws;
    }
  }

  /** Words joined by single spaces form a normalized string. */
  lemma {:induction false} JoinIsNormalized(ws: seq<string>)
    requires AllWords(ws)
    ensures Normalized(JoinSpaces(ws))
  {
    if |ws| > 1 {
      var w := ws[0];
      var rest := JoinSpaces(ws[1..]);
      JoinIsNormalized(ws[1..]);
      JoinNonEmpty(ws[1..]);
      var s := JoinSpaces(ws);
      assert s == w + [' '] + rest;
      assert forall i :: 0 <= i < |w| ==> s[i] == w[i];
      assert forall i :: |w| < i < |s| ==> s[i] == rest[i - |w| - 1];
      assert s[|s| - 1] == rest[|rest| - 1];
    }
  }

  lemma JoinNonEmpty(ws: seq<string>)
    requires AllWords(ws) && ws != []
    ensures JoinSpaces(ws) != [] && JoinSpaces(ws)[0] == ws[0][0]
  {
  }

  /** After the first word of a normalized string that holds more than one word
      come one space and a normalized, non-empty remainder. */
  lemma NormalizedTail(s: string, n: nat)
    requires Normalized(s) && s != [] && n == WordLength(s) && n < |s|
    ensures s[n] == ' ' && n + 1 < |s|
    ensures var rest := s[n + 1..]; rest != [] && !IsSpace(rest[0]) && Normalized(rest)
  {
    var rest := s[n + 1..];
    assert forall i :: 0 <= i < |rest| ==> rest[i] == s[n + 1 + i];
  }

  /** After a word followed by whitespace, splitting goes on past that whitespace. */
  lemma SplitAfterWord(s: string, n: nat)
    requires s != [] && !IsSpace(s[0]) && n == WordLength(s) && n < |s|
    ensures Split(s) == [s[..n]] + Split(s[n + 1..])
  {
    assert Split(s) == [s[..n]] + Split(s[n..]);
    assert s[n..][1..] == s[n + 1..];
  }

  lemma JoinSpacesCons(w: string, ws: seq<string>)
    requires ws != []
    ensures JoinSpaces([w] + ws) == w + " " + JoinSpaces(ws)
  {
    assert ([w] + ws)[1..] == ws;
  }

  /** One step of `JoinSplit`: a word, a space and a remainder that joining its
      own words recovers, is recovered the same way. */
  lemma JoinSplitStep(w: string, rest: string)
    requires IsWord(w) && rest != [] && !IsSpace(rest[0])
    requires JoinSpaces(Split(rest)) == rest
    ensures JoinSpaces(Split(w + " " + rest)) == w + " " + rest
  {
    var words := Split(rest);
    assert Split(w + " " + rest) == [w] + words by {
      SplitAtSpace(w, ' ', rest);
      SplitJoin([w]);
      assert w + " " + rest == w + [' '] + rest;
    }
    assert words != [] by {
      SplitEmpty(rest);
    }
    JoinSpacesCons(w, words);
  }

  /** A string that is its first word, one space and a non-empty remainder is
      that word followed by the space and the remainder. */
  lemma WordSpaceRest(s: string, n: nat)
    requires 0 < n && n + 1 < |s| && s[n] == ' '
    requires forall i :: 0 <= i < n ==> !IsSpace(s[i])
    ensures IsWord(s[..n]) && s == s[..n] + " " + s[n + 1..]
  {
    var w := s[..n];
    assert IsWord(w) by {
      assert forall i :: 0 <= i < n ==> w[i] == s[i];
    }
    assert s == w + " " + s[n + 1..] by {
      assert " " == [s[n]];
      assert s[n..] == [s[n]] + s[n + 1..];
      assert s == w + s[n..];
    }
  }

  /** A normalized string is recovered by joining its words with single spaces. */
  lemma {:induction false} JoinSplit(s: string)
    requires Normalized(s)
    ensures JoinSpaces(Split(s)) == s
    decreases |s|
  {
    if s != [] {
      var n := WordLength(s);
      if n == |s| {
        assert s[n..] == [];
        assert Split(s) == [s[..n]];
      } else {
        NormalizedTail(s, n);
        assert !IsSpace(s[0]);
        WordSpaceRest(s, n);
        JoinSplit(s[n + 1..]);
        JoinSplitStep(s[..n], s[n + 1..]);
      }
    }
  }

  /** `" ".join(s.split()) == s` exactly when `s` is already normalized. */
  lemma SplitJoinIdentity(s: string)
    ensures JoinSpaces(Split(s)) == s <==> Normalized(s)
  {
    JoinIsNormalized(Split(s));
    if Normalized(s) {
      JoinSplit(s);
    }
  }

  /** `s.replace(a, b)` leaves no `a` behind when `a != b`. */
  lemma ReplaceCharRemoves(s: string, a: char, b: char)
    requires a != b
    ensures a !in ReplaceChar(s, a, b)
  {
    var r := ReplaceChar(s, a, b);
    assert forall i :: 0 <= i < |r| ==> r[i] != a;
  }

  /** Replacing a character that does not occur changes nothing. */
  lemma ReplaceCharAbsent(s: string, a: char, b: char)
    requires a !in s
    ensures ReplaceChar(s, a, b) == s
  {
    var r := ReplaceChar(s, a, b);
    assert forall i :: 0 <= i < |s| ==> r[i] == s[i];
  }

  /** The root and the extension of `os.path.splitext` put back together give the
      path; a non-empty extension starts with its only dot and holds no separator. */
  lemma SplitExtParts(p: string)
    ensures SplitExt(p).0 + SplitExt(p).1 == p
    ensures var ext := SplitExt(p).1;
      ext == [] || (ext[0] == '.' && forall i :: 1 <= i < |ext| ==> ext[i] != '.' && ext[i] != '/')
  {
    if HasExtension(p) {
      var dot := LastIndexOf(p, '.');
      var sep := LastIndexOf(p, '/');
      var ext := p[dot..];
      assert p[..dot] + ext == p;
      forall i | 1 <= i < |ext| ensures ext[i] != '.' && ext[i] != '/' {
        assert ext[i] == p[dot + i];
      }
    }
  }
}

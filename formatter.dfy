/** The reply formatter `to_markdown`: every bullet glyph becomes a Markdown
    list marker, then every line of the result is quoted with "> " the way
    `textwrap.indent` does it when its predicate accepts every line. */
module Formatter {
  import Text

  /** The bullet glyph the formatter looks for (U+2022). */
  const Bullet: char := '•'
  /** What each bullet is replaced with: two spaces and an asterisk. */
  const BulletMarker: string := "  *"
  /** The prefix put in front of every line. */
  const QuotePrefix: string := "> "

  // ---------------------------------------------------------------------------
  // Bullet replacement: `text.replace("•", "  *")`
  // ---------------------------------------------------------------------------

  /** What one character of the input turns into. */
  function Expand(c: char): string {
    if c == Bullet then BulletMarker else [c]
  }

  /** `text.replace("•", "  *")`. The pattern is a single character, so the
      left-to-right scan of `str.replace` is a character-by-character rewrite. */
  function ReplaceBullets(s: string): (r: string)
    decreases |s|
  {
    if s == [] then [] else Expand(s[0]) + ReplaceBullets(s[1..])
  }

  /** No bullet survives replacement. */
  lemma {:induction false} ReplaceBulletsRemovesBullets(s: string)
    ensures Bullet !in ReplaceBullets(s)
    decreases |s|
  {
    if s != [] {
      ReplaceBulletsRemovesBullets(s[1..]);
    }
  }

  /** Every bullet grows by two characters; every other character is kept. */
  lemma {:induction false} ReplaceBulletsLength(s: string)
    ensures |ReplaceBullets(s)| == |s| + 2 * multiset(s)[Bullet]
    decreases |s|
  {
    if s != [] {
      assert s == [s[0]] + s[1..];
      ReplaceBulletsLength(s[1..]);
    }
  }

  /** Replacement works piece by piece: it distributes over concatenation. */
  lemma {:induction false} ReplaceBulletsAppend(a: string, b: string)
    ensures ReplaceBullets(a + b) == ReplaceBullets(a) + ReplaceBullets(b)
    decreases |a|
  {
    if a == [] {
      assert a + b == b;
    } else {
      assert (a + b)[0] == a[0] && (a + b)[1..] == a[1..] + b;
      ReplaceBulletsAppend(a[1..], b);
    }
  }

  /** Text without bullets is left exactly as it is. */
  lemma {:induction false} ReplaceBulletsNoBullet(s: string)
    requires Bullet !in s
    ensures ReplaceBullets(s) == s
    decreases |s|
  {
    if s != [] {
      assert Bullet !in s[1..] by {
        assert forall i :: 0 <= i < |s| - 1 ==> s[1..][i] == s[i + 1];
      }
      ReplaceBulletsNoBullet(s[1..]);
    }
  }

  /** Replacement keeps every character except the bullet: those it adds are
      spaces and asterisks, and line breaks are neither added nor removed. */
  lemma {:induction false} ReplaceBulletsChars(s: string, c: char)
    requires c in ReplaceBullets(s)
    ensures c in s || c == ' ' || c == '*'
    decreases |s|
  {
    if s != [] {
      if c !in Expand(s[0]) {
        ReplaceBulletsChars(s[1..], c);
      }
    }
  }

  /** The first character of a non-empty replacement comes from the first input character. */
  lemma ReplaceBulletsHead(s: string)
    requires s != []
    ensures ReplaceBullets(s) != [] && ReplaceBullets(s)[0] == Expand(s[0])[0]
  {
  }

  // ---------------------------------------------------------------------------
  // Lines: `str.splitlines(keepends=True)`
  // ---------------------------------------------------------------------------

  /** The characters `str.splitlines` treats as line boundaries; "\r\n" counts as one. */
  predicate IsLineBreak(c: char) {
    ('\n' <= c <= '\r') || ('\U{1C}' <= c <= '\U{1E}') || c == '\U{85}' || c == '\U{2028}' || c == '\U{2029}'
  }

  /** True when no character of `s` is a line boundary. */
  predicate NoBreak(s: string) {
    forall i :: 0 <= i < |s| ==> !IsLineBreak(s[i])
  }

  /** Length of the text before the first line boundary. */
  function BodyLength(s: string): (n: nat)
    ensures n <= |s|
    ensures forall i :: 0 <= i < n ==> !IsLineBreak(s[i])
    ensures n < |s| ==> IsLineBreak(s[n])
    decreases |s|
  {
    if s == [] || IsLineBreak(s[0]) then 0
    else 1 + BodyLength(s[1..])
  }

  /** Length of the first line of `s`, its terminator ("\r\n" or one boundary
      character, or nothing for a last line without one) included. */
  function FirstLineLength(s: string): (n: nat)
    requires s != []
    ensures 0 < n <= |s|
  {
    var b := BodyLength(s);
    if b == |s| then b
    else if s[b] == '\r' && b + 1 < |s| && s[b + 1] == '\n' then b + 2
    else b + 1
  }

  /** `s.splitlines(keepends=True)`: the lines of `s`, each with its terminator. */
  function SplitLines(s: string): (lines: seq<string>)
    ensures forall i :: 0 <= i < |lines| ==> lines[i] != []
    decreases |s|
  {
    if s == [] then []
    else
      var n := FirstLineLength(s);
      [s[..n]] + SplitLines(s[n..])
  }

  /** `''.join(lines)`. */
  function Concat(lines: seq<string>): (r: string)
    decreases |lines|
  {
    if lines == [] then [] else lines[0] + Concat(lines[1..])
  }

  /** `prefix + line` for every line. */
  function PrefixEach(lines: seq<string>, prefix: string): (r: seq<string>)
    ensures |r| == |lines|
    ensures forall i :: 0 <= i < |lines| ==> r[i] == prefix + lines[i]
    decreases |lines|
  {
    if lines == [] then [] else [prefix + lines[0]] + PrefixEach(lines[1..], prefix)
  }

  /** Each line with one leading `prefix` removed when it starts with one. */
  function UnprefixEach(lines: seq<string>, prefix: string): (r: seq<string>)
    ensures |r| == |lines|
    ensures forall i :: 0 <= i < |lines| ==>
      r[i] == if prefix <= lines[i] then lines[i][|prefix|..] else lines[i]
    decreases |lines|
  {
    if lines == [] then []
    else
      var line := lines[0];
      [if prefix <= line then line[|prefix|..] else line] + UnprefixEach(lines[1..], prefix)
  }

  /** `textwrap.indent(s, prefix, predicate=lambda _: True)`. */
  function Indent(s: string, prefix: string): (r: string)
  {
    Concat(PrefixEach(SplitLines(s), prefix))
  }

  /** The inverse of `Indent`: strip one leading `prefix` from every line. */
  function Dedent(s: string, prefix: string): (r: string)
  {
    Concat(UnprefixEach(SplitLines(s), prefix))
  }

  /** `to_markdown(text)`. */
  function ToMarkdown(text: string): (r: string)
  {
    Indent(ReplaceBullets(text), QuotePrefix)
  }

  // ---------------------------------------------------------------------------
  // Facts about lines
  // ---------------------------------------------------------------------------

  /** Joining the lines gives back the text. */
  lemma {:induction false} ConcatSplitLines(s: string)
    ensures Concat(SplitLines(s)) == s
    decreases |s|
  {
    if s != [] {
      var n := FirstLineLength(s);
      ConcatSplitLines(s[n..]);
      assert s == s[..n] + s[n..];
    }
  }

  /** Lengths add up across a join. */
  lemma {:induction false} ConcatLength(lines: seq<string>, prefix: string)
    ensures |Concat(PrefixEach(lines, prefix))| == |Concat(lines)| + |prefix| * |lines|
    decreases |lines|
  {
    if lines != [] {
      assert PrefixEach(lines, prefix)[1..] == PrefixEach(lines[1..], prefix);
      ConcatLength(lines[1..], prefix);
    }
  }

  /** Break-free text in front of a line shifts its first boundary. */
  lemma BodyLengthAfter(p: string, u: string)
    requires NoBreak(p)
    ensures BodyLength(p + u) == |p| + BodyLength(u)
  {
    var x := p + u;
    var b := BodyLength(u);
    assert forall i :: 0 <= i < |p| + b ==> x[i] == (if i < |p| then p[i] else u[..b][i - |p|]);
    assert |p| + b < |x| ==> x[|p| + b] == u[b];
  }

  /** Cutting the text after its first boundary does not move that boundary. */
  lemma BodyLengthCut(s: string, n: nat, u: string)
    requires BodyLength(s) < n <= |s|
    ensures BodyLength(s[..n] + u) == BodyLength(s)
  {
    var b := BodyLength(s);
    var x := s[..n] + u;
    assert forall i :: 0 <= i < b ==> x[i] == s[..b][i];
    assert x[b] == s[b];
  }

  /** Break-free text in front of a line lengthens its first line by exactly that much. */
  lemma FirstLineAfter(p: string, x: string)
    requires NoBreak(p) && x != []
    ensures FirstLineLength(p + x) == |p| + FirstLineLength(x)
  {
    BodyLengthAfter(p, x);
    var b := BodyLength(x);
    if b < |x| {
      assert (p + x)[|p| + b] == x[b];
      if b + 1 < |x| {
        assert (p + x)[|p| + b + 1] == x[b + 1];
      }
    }
  }

  /** `l` has the shape of one line of `splitlines(keepends=True)`: it is not
      empty, no boundary occurs in it before its terminator (a "\r\n" terminator
      is one boundary), and unless it is the last line it ends in a boundary. */
  predicate IsLine(l: string, last: bool) {
    && l != []
    && (forall k :: 0 <= k < |l| - 1 ==>
          !IsLineBreak(l[k]) || (k == |l| - 2 && l[k] == '\r' && l[k + 1] == '\n'))
    && (!last ==> IsLineBreak(l[|l| - 1]))
  }

  /** Each piece is a line, only the last may lack a terminator, and a piece
      ended by a lone "\r" is never followed by one that starts with "\n" (the
      two would have been one "\r\n" boundary). */
  predicate AreLines(lines: seq<string>) {
    && (forall i :: 0 <= i < |lines| ==> IsLine(lines[i], i == |lines| - 1))
    && (forall i :: 0 <= i < |lines| - 1 && lines[i][|lines[i]| - 1] == '\r' ==>
          lines[i + 1][0] != '\n')
  }

  /** One line in front of more lines. */
  lemma AreLinesCons(line: string, tail: seq<string>)
    requires IsLine(line, tail == []) && AreLines(tail)
    requires tail != [] && line[|line| - 1] == '\r' ==> tail[0][0] != '\n'
    ensures AreLines([line] + tail)
  {
    var lines := [line] + tail;
    forall i | 1 <= i < |lines|
      ensures IsLine(lines[i], i == |lines| - 1)
    {
      assert lines[i] == tail[i - 1];
    }
    forall i | 1 <= i < |lines| - 1 && lines[i][|lines[i]| - 1] == '\r'
      ensures lines[i + 1][0] != '\n'
    {
      assert lines[i] == tail[i - 1] && lines[i + 1] == tail[i];
    }
  }

  /** `splitlines(keepends=True)` cuts a text into lines. */
  lemma {:induction false} SplitLinesAreLines(s: string)
    ensures AreLines(SplitLines(s))
    decreases |s|
  {
    if s != [] {
      var n := FirstLineLength(s);
      var line, rest := s[..n], s[n..];
      var tail := SplitLines(rest);
      SplitFirst(s);
      SplitLinesAreLines(rest);
      FirstLineIsLine(s);
      if rest != [] {
        SplitFirst(rest);
        assert tail != [] && tail[0][0] == rest[0] == s[n];
        assert line[n - 1] == s[n - 1];
        LineFacts(s);
      } else {
        assert tail == [];
      }
      AreLinesCons(line, tail);
    }
  }

  /** The first line of a text is a line, and the last one exactly when it
      reaches the end of the text. */
  lemma FirstLineIsLine(s: string)
    requires s != []
    ensures var n := FirstLineLength(s); IsLine(s[..n], n == |s|)
  {
    var n := FirstLineLength(s);
    var b := BodyLength(s);
    var line := s[..n];
    forall k | 0 <= k < |line| - 1
      ensures !IsLineBreak(line[k]) || (k == |line| - 2 && line[k] == '\r' && line[k + 1] == '\n')
    {
      assert line[k] == s[k];
      if b <= k {
        assert k == b && n == b + 2;
        assert line[k + 1] == s[k + 1];
      }
    }
    if n < |s| {
      assert line[n - 1] == s[n - 1];
    }
  }

  /** Facts about the first line of a text: on its own it is a single line; if it
      has no terminator it is the whole text; a lone "\r" ending it is not followed
      by "\n". */
  lemma LineFacts(s: string)
    requires s != []
    ensures var n := FirstLineLength(s);
      && FirstLineLength(s[..n]) == n
      && (BodyLength(s[..n]) == n ==> n == |s|)
      && (n < |s| && s[n - 1] == '\r' ==> s[n] != '\n')
  {
    var n := FirstLineLength(s);
    var b := BodyLength(s);
    if b < |s| {
      BodyLengthCut(s, n, []);
      assert s[..n] + [] == s[..n];
      assert s[..n][b] == s[b];
      if n == b + 2 {
        assert s[..n][b + 1] == s[b + 1];
      }
    } else {
      assert s[..n] == s;
    }
  }

  /** A single line followed by more text stays the first line, unless it has no
      terminator or ends in a lone "\r" that the text after it would complete to "\r\n". */
  lemma FirstLineExtended(line: string, tail: string)
    requires line != [] && FirstLineLength(line) == |line|
    requires BodyLength(line) == |line| ==> tail == []
    requires line[|line| - 1] == '\r' && tail != [] ==> tail[0] != '\n'
    ensures FirstLineLength(line + tail) == |line|
  {
    var b := BodyLength(line);
    if b == |line| {
      assert line + tail == line;
    } else {
      BodyLengthCut(line, |line|, tail);
      assert line[..|line|] == line;
      assert (line + tail)[b] == line[b];
      if b + 1 < |line| {
        assert (line + tail)[b + 1] == line[b + 1];
      } else if tail != [] {
        assert (line + tail)[b + 1] == tail[0];
      }
    }
  }

  /** A text whose first line is `line` splits into `line` and the lines after it. */
  lemma SplitAfterLine(line: string, tail: string)
    requires line != [] && FirstLineLength(line + tail) == |line|
    ensures SplitLines(line + tail) == [line] + SplitLines(tail)
  {
    assert (line + tail)[..|line|] == line;
    assert (line + tail)[|line|..] == tail;
  }

  /** The last character of a concatenation with a non-empty right part. */
  lemma LastOfAppend(a: string, b: string)
    requires b != []
    ensures (a + b)[|a + b| - 1] == b[|b| - 1]
  {
  }

  /** The first line of `s` and the rest of `s`, split apart. */
  lemma SplitFirst(s: string)
    requires s != []
    ensures var n := FirstLineLength(s);
      SplitLines(s) == [s[..n]] + SplitLines(s[n..]) && s == s[..n] + s[n..]
  {
  }

  /** Indenting text yields the indented lines: `prefix` goes in front of every
      line and no line boundary moves, as long as `prefix` holds no boundary. */
  lemma {:induction false} SplitIndented(s: string, prefix: string)
    requires prefix != [] && NoBreak(prefix)
    ensures SplitLines(Indent(s, prefix)) == PrefixEach(SplitLines(s), prefix)
    decreases |s|
  {
    if s != [] {
      var n := FirstLineLength(s);
      var line, rest := s[..n], s[n..];
      var tail := Indent(rest, prefix);
      SplitFirst(s);
      assert Indent(s, prefix) == prefix + line + tail by {
        assert PrefixEach(SplitLines(s), prefix) == [prefix + line] + PrefixEach(SplitLines(rest), prefix);
      }
      assert rest != [] ==> tail != [] && tail[0] == prefix[0] by {
        if rest != [] {
          SplitFirst(rest);
          var m := FirstLineLength(rest);
          assert PrefixEach(SplitLines(rest), prefix) == [prefix + rest[..m]] + PrefixEach(SplitLines(rest[m..]), prefix);
        }
      }
      LineFacts(s);
      if line[|line| - 1] == '\r' && rest != [] {
        assert prefix[0] != '\n';
      }
      FirstLineExtended(line, tail);
      FirstLineAfter(prefix, line + tail);
      Text.AppendAssoc(prefix, line, tail);
      SplitAfterLine(prefix + line, tail);
      SplitIndented(rest, prefix);
    }
  }

  /** Replacing bullets in break-free text leaves it break-free. */
  lemma NoBreakReplaced(s: string)
    requires NoBreak(s)
    ensures NoBreak(ReplaceBullets(s))
  {
    var r := ReplaceBullets(s);
    forall i | 0 <= i < |r| ensures !IsLineBreak(r[i]) {
      ReplaceBulletsChars(s, r[i]);
    }
  }

  /** The terminator of a line holds no bullet, so replacement keeps it as it
      is, and on its own it is a single line. */
  lemma TerminatorKept(line: string)
    requires line != [] && FirstLineLength(line) == |line|
    ensures var t := line[BodyLength(line)..];
      && ReplaceBullets(t) == t
      && (t != [] ==> FirstLineLength(t) == |t|)
  {
    var b := BodyLength(line);
    var t := line[b..];
    if b < |line| {
      assert t[0] == line[b];
      assert BodyLength(t) == 0;
      if |line| == b + 2 {
        TerminatorPair(line[b], line[b + 1]);
        assert t == [line[b], line[b + 1]];
      } else {
        TerminatorSingle(line[b]);
        assert t == [line[b]];
      }
    } else {
      assert t == [];
    }
  }

  /** A lone boundary character: no bullet, one line. */
  lemma TerminatorSingle(c: char)
    requires IsLineBreak(c)
    ensures ReplaceBullets([c]) == [c] && FirstLineLength([c]) == 1
  {
    assert [c][1..] == [];
  }

  /** "\r\n": no bullet, one line. */
  lemma TerminatorPair(c: char, d: char)
    requires c == '\r' && d == '\n'
    ensures ReplaceBullets([c, d]) == [c, d] && FirstLineLength([c, d]) == 2
  {
    TerminatorSingle(d);
    assert [c, d][1..] == [d];
    assert Expand(c) + [d] == [c, d];
  }

  /** A single line stays a single line once its bullets are replaced; it keeps
      its terminator and gains none. */
  lemma ReplacedLine(line: string)
    requires line != [] && FirstLineLength(line) == |line|
    ensures var r := ReplaceBullets(line);
      && r != [] && FirstLineLength(r) == |r|
      && (BodyLength(r) == |r| ==> BodyLength(line) == |line|)
      && (r[|r| - 1] == '\r' ==> line[|line| - 1] == '\r')
  {
    ReplaceBulletsHead(line);
    if BodyLength(line) == |line| {
      ReplacedUnterminated(line);
    } else {
      ReplacedTerminated(line);
    }
  }

  /** A line without terminator stays one after replacement. */
  lemma ReplacedUnterminated(line: string)
    requires BodyLength(line) == |line|
    ensures var r := ReplaceBullets(line); NoBreak(r) && BodyLength(r) == |r|
  {
    var r := ReplaceBullets(line);
    NoBreakReplaced(line);
    BodyLengthAfter(r, []);
    assert r + [] == r;
  }

  /** A terminated line keeps its terminator, and nothing before it becomes one. */
  lemma ReplacedTerminated(line: string)
    requires line != [] && FirstLineLength(line) == |line| && BodyLength(line) < |line|
    ensures var r := ReplaceBullets(line);
      && r != [] && BodyLength(r) < |r| && FirstLineLength(r) == |r|
      && r[|r| - 1] == line[|line| - 1]
  {
    var b := BodyLength(line);
    var body, term := line[..b], line[b..];
    var head := ReplaceBullets(body);
    var r := ReplaceBullets(line);
    assert line == body + term;
    ReplaceBulletsAppend(body, term);
    NoBreakReplaced(body);
    TerminatorKept(line);
    assert r == head + term;
    BodyLengthAfter(head, term);
    FirstLineAfter(head, term);
    LastOfAppend(head, term);
    LastOfAppend(body, term);
  }

  /** Bullet replacement leaves every line boundary where it was: the lines of the
      replaced text are the replaced lines. */
  lemma {:induction false} SplitReplaced(s: string)
    ensures |SplitLines(ReplaceBullets(s))| == |SplitLines(s)|
    ensures forall i :: 0 <= i < |SplitLines(s)| ==>
      SplitLines(ReplaceBullets(s))[i] == ReplaceBullets(SplitLines(s)[i])
    decreases |s|
  {
    if s != [] {
      var n := FirstLineLength(s);
      var rest := s[n..];
      ReplacedFirstLine(s);
      SplitFirst(s);
      SplitReplaced(rest);
      var out, lines := SplitLines(ReplaceBullets(s)), SplitLines(s);
      forall i | 0 <= i < |lines| ensures out[i] == ReplaceBullets(lines[i]) {
        if i > 0 {
          assert out[i] == SplitLines(ReplaceBullets(rest))[i - 1];
          assert lines[i] == SplitLines(rest)[i - 1];
        }
      }
    }
  }

  /** The first line of the replaced text is the replaced first line, and the
      rest is the replaced rest. */
  lemma ReplacedFirstLine(s: string)
    requires s != []
    ensures var n := FirstLineLength(s);
      SplitLines(ReplaceBullets(s)) == [ReplaceBullets(s[..n])] + SplitLines(ReplaceBullets(s[n..]))
  {
    var n := FirstLineLength(s);
    var line, rest := s[..n], s[n..];
    var head, tail := ReplaceBullets(line), ReplaceBullets(rest);
    assert s == line + rest;
    ReplaceBulletsAppend(line, rest);
    LineFacts(s);
    ReplacedLine(line);
    if rest != [] {
      ReplaceBulletsHead(rest);
    }
    FirstLineExtended(head, tail);
    SplitAfterLine(head, tail);
  }

  /** Indenting a non-empty text: the prefixed first line, then the rest indented. */
  lemma IndentFirst(s: string, prefix: string)
    requires s != []
    ensures var n := FirstLineLength(s);
      Indent(s, prefix) == prefix + s[..n] + Indent(s[n..], prefix)
  {
    var n := FirstLineLength(s);
    assert PrefixEach(SplitLines(s), prefix) == [prefix + s[..n]] + PrefixEach(SplitLines(s[n..]), prefix);
  }

  /** Every character of an indented text comes from the text or from the prefix. */
  lemma {:induction false} IndentChars(lines: seq<string>, prefix: string, c: char)
    requires c in Concat(PrefixEach(lines, prefix))
    ensures c in prefix || c in Concat(lines)
    decreases |lines|
  {
    if lines != [] {
      assert PrefixEach(lines, prefix)[1..] == PrefixEach(lines[1..], prefix);
      if c !in prefix + lines[0] {
        IndentChars(lines[1..], prefix, c);
      }
    }
  }

  /** Removing the prefix from prefixed lines gives the lines back. */
  lemma UnprefixPrefixed(lines: seq<string>, prefix: string)
    ensures UnprefixEach(PrefixEach(lines, prefix), prefix) == lines
  {
    var r := UnprefixEach(PrefixEach(lines, prefix), prefix);
    forall i | 0 <= i < |lines| ensures r[i] == lines[i] {
      assert (prefix + lines[i])[|prefix|..] == lines[i];
    }
  }

  /** Adding "\n" after a last line that has no terminator terminates that line;
      it does not start a new one. */
  lemma {:induction false} IndentAppendNewline(s: string, prefix: string)
    requires s != [] && !IsLineBreak(s[|s| - 1])
    ensures Indent(s + "\n", prefix) == Indent(s, prefix) + "\n"
    decreases |s|
  {
    var n := FirstLineLength(s);
    var line, rest := s[..n], s[n..];
    if n == |s| {
      assert BodyLength(s) == |s|;
      IndentLastLine(s, prefix);
      IndentTerminatedLine(s, prefix);
    } else {
      IndentFirst(s, prefix);
      IndentNewlineAfterFirst(s, prefix);
      assert rest[|rest| - 1] == s[|s| - 1];
      IndentAppendNewline(rest, prefix);
      Text.AppendAssoc(prefix + line, Indent(rest, prefix), "\n");
    }
  }

  /** When `s` has more than one line, "\n" appended to `s` is appended to the
      text after its first line, and the first line stays as it is. */
  lemma IndentNewlineAfterFirst(s: string, prefix: string)
    requires s != [] && FirstLineLength(s) < |s|
    ensures var n := FirstLineLength(s);
      Indent(s + "\n", prefix) == prefix + s[..n] + Indent(s[n..] + "\n", prefix)
  {
    var n := FirstLineLength(s);
    var line, rest := s[..n], s[n..];
    var s' := s + "\n";
    assert s == line + rest;
    assert s' == line + (rest + "\n");
    LineFacts(s);
    FirstLineExtended(line, rest + "\n");
    assert s'[..n] == line && s'[n..] == rest + "\n";
    IndentFirst(s', prefix);
  }

  /** A break-free line ended by "\n" is a single line. */
  lemma IndentTerminatedLine(line: string, prefix: string)
    requires NoBreak(line)
    ensures Indent(line + "\n", prefix) == prefix + line + "\n"
  {
    var x := line + "\n";
    BodyLengthAfter(line, "\n");
    assert x[|line|] == '\n';
    assert FirstLineLength(x) == |x|;
    assert x[..|x|] == x && x[|x|..] == [];
    IndentFirst(x, prefix);
  }

  // ---------------------------------------------------------------------------
  // What `to_markdown` promises
  // ---------------------------------------------------------------------------

  /** No bullet glyph survives formatting. */
  lemma ToMarkdownHasNoBullet(text: string)
    ensures Bullet !in ToMarkdown(text)
  {
    var x := ReplaceBullets(text);
    ReplaceBulletsRemovesBullets(text);
    if Bullet in ToMarkdown(text) {
      IndentChars(SplitLines(x), QuotePrefix, Bullet);
      ConcatSplitLines(x);
      assert false;
    }
  }

  /** Formatting adds two characters per bullet and two per line (the "> "
      prefix), where the lines are those of the input text. */
  lemma ToMarkdownLength(text: string)
    ensures |ToMarkdown(text)| == |text| + 2 * multiset(text)[Bullet] + 2 * |SplitLines(text)|
  {
    var x := ReplaceBullets(text);
    ReplaceBulletsLength(text);
    ConcatLength(SplitLines(x), QuotePrefix);
    ConcatSplitLines(x);
    SplitReplaced(text);
  }

  /** The lines of the output are the lines of the input, one for one and in order,
      each with its bullets replaced and "> " in front; blank lines are quoted too. */
  lemma ToMarkdownQuotesEveryLine(text: string)
    ensures var out, lines := SplitLines(ToMarkdown(text)), SplitLines(text);
      && |out| == |lines|
      && forall i :: 0 <= i < |lines| ==> out[i] == QuotePrefix + ReplaceBullets(lines[i])
  {
    SplitIndented(ReplaceBullets(text), QuotePrefix);
    SplitReplaced(text);
  }

  /** Removing one leading "> " from every output line gives back the
      bullet-replaced text. */
  lemma ToMarkdownDedent(text: string)
    ensures Dedent(ToMarkdown(text), QuotePrefix) == ReplaceBullets(text)
  {
    var x := ReplaceBullets(text);
    SplitIndented(x, QuotePrefix);
    UnprefixPrefixed(SplitLines(x), QuotePrefix);
    ConcatSplitLines(x);
  }

  /** Empty input gives empty output, and a final "\n" after unterminated text
      ends its last quoted line instead of adding an empty quoted line. */
  lemma ToMarkdownTrailingNewline(text: string)
    ensures ToMarkdown([]) == []
    ensures text != [] && !IsLineBreak(text[|text| - 1]) ==>
      ToMarkdown(text + "\n") == ToMarkdown(text) + "\n"
  {
    if text != [] && !IsLineBreak(text[|text| - 1]) {
      var k := |text| - 1;
      var c := text[k];
      assert text == text[..k] + [c];
      ReplaceBulletsAppend(text[..k], [c]);
      var x := ReplaceBullets(text);
      assert x == ReplaceBullets(text[..k]) + Expand(c);
      assert x != [] && !IsLineBreak(x[|x| - 1]);
      ReplaceBulletsNoBullet("\n");
      ReplaceBulletsAppend(text, "\n");
      assert ReplaceBullets(text + "\n") == x + "\n";
      IndentAppendNewline(x, QuotePrefix);
    }
  }

  /** A bullet followed by bullet-free text. */
  lemma ReplaceLeadingBullet(a: string)
    requires Bullet !in a
    ensures ReplaceBullets([Bullet] + a) == BulletMarker + a
  {
    ReplaceBulletsNoBullet(a);
    ReplaceBulletsAppend([Bullet], a);
  }

  /** The list marker holds no line boundary. */
  lemma NoBreakMarked(a: string)
    requires NoBreak(a)
    ensures NoBreak(BulletMarker + a)
  {
    var x := BulletMarker + a;
    forall i | 0 <= i < |x| ensures !IsLineBreak(x[i]) {
      if i >= 3 {
        assert x[i] == a[i - 3];
      }
    }
  }

  /** A break-free line ended by "\n", then any text. */
  lemma IndentLineThen(line: string, y: string, prefix: string)
    requires NoBreak(line)
    ensures Indent(line + "\n" + y, prefix) == prefix + line + "\n" + Indent(y, prefix)
  {
    var x := line + "\n" + y;
    BodyLengthAfter(line, "\n" + y);
    assert x == line + ("\n" + y) && x[|line|] == '\n';
    assert FirstLineLength(x) == |line| + 1;
    assert x[..|line| + 1] == line + "\n" && x[|line| + 1..] == y;
    IndentFirst(x, prefix);
    Text.AppendAssoc(prefix, line, "\n");
  }

  /** A non-empty break-free text is one unterminated line. */
  lemma IndentLastLine(line: string, prefix: string)
    requires NoBreak(line) && line != []
    ensures Indent(line, prefix) == prefix + line
  {
    BodyLengthAfter(line, []);
    assert line + [] == line;
    IndentFirst(line, prefix);
    assert line[..|line|] == line && line[|line|..] == [];
  }

  /** A bulleted line that is followed by another becomes a quoted Markdown list
      item: "• a\n" + rest turns into ">   * a\n" + the formatted rest. */
  lemma ToMarkdownBulletLine(a: string, rest: string)
    requires NoBreak(a) && Bullet !in a
    ensures ToMarkdown([Bullet] + a + "\n" + rest) == QuotePrefix + BulletMarker + a + "\n" + ToMarkdown(rest)
  {
    var line := BulletMarker + a;
    ReplaceLeadingBullet(a);
    ReplaceBulletsNoBullet("\n");
    ReplaceBulletsAppend([Bullet] + a, "\n");
    ReplaceBulletsAppend([Bullet] + a + "\n", rest);
    NoBreakMarked(a);
    IndentLineThen(line, ReplaceBullets(rest), QuotePrefix);
  }

  /** A last line that starts with a bullet and has no terminator becomes a
      quoted Markdown list item: "• b" turns into ">   * b". */
  lemma ToMarkdownLastBulletLine(b: string)
    requires NoBreak(b) && Bullet !in b
    ensures ToMarkdown([Bullet] + b) == QuotePrefix + BulletMarker + b
  {
    ReplaceLeadingBullet(b);
    NoBreakMarked(b);
    IndentLastLine(BulletMarker + b, QuotePrefix);
  }

  /** Two bulleted lines, "•" + a + "\n" + "•" + b, become two quoted list items,
      ">   *" + a + "\n" + ">   *" + b (for a = " a", b = " b" this is
      "• a\n• b" turned into ">   * a\n>   * b"). */
  lemma ToMarkdownTwoBullets(a: string, b: string)
    requires NoBreak(a) && Bullet !in a && NoBreak(b) && Bullet !in b
    ensures ToMarkdown([Bullet] + a + "\n" + [Bullet] + b) == QuotePrefix + BulletMarker + a + "\n" + QuotePrefix + BulletMarker + b
  {
    assert [Bullet] + a + "\n" + [Bullet] + b == [Bullet] + a + "\n" + ([Bullet] + b);
    ToMarkdownBulletLine(a, [Bullet] + b);
    ToMarkdownLastBulletLine(b);
  }

  /** The worked example: "• a\n• b" is shown as ">   * a\n>   * b". */
  lemma ToMarkdownExample()
    ensures ToMarkdown("• a\n• b") == ">   * a\n>   * b"
  {
    var a, b := " a", " b";
    assert "• a\n• b" == [Bullet] + a + "\n" + [Bullet] + b;
    ToMarkdownTwoBullets(a, b);
    assert QuotePrefix + BulletMarker + a + "\n" + QuotePrefix + BulletMarker + b == ">   * a\n>   * b";
  }
}

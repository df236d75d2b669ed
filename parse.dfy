/**
 * parseline: split a command line into an argument vector.  The line is copied up to its
 * NUL and its last character (the newline) becomes a space.  Words are separated by runs of
 * spaces; a word that starts with a single quote runs to the next single quote (spaces
 * included); text left without its closing delimiter is dropped; a last word starting with
 * `&` asks for a background job and is removed.
 *
 * The specification functions walk an index over one fixed buffer, the way the shell walks
 * its pointer; ParseLine is the shell's loop, proved equal to them.
 */
module Parse {
  import opened Wrappers
  import opened CStrings

  /** The buffer parseline scans: the C string of the line with its last character replaced
      by a space. */
  function Buffer(line: seq<char>): (b: seq<char>)
    requires StrLen(line) >= 1
    ensures |b| == StrLen(line) && b[|b| - 1] == ' '
  {
    line[..StrLen(line) - 1] + [' ']
  }

  /** Where the leading spaces from index i end (tabs are not skipped). */
  function SkipFrom(b: seq<char>, i: nat): (j: nat)
    requires i <= |b|
    ensures i <= j <= |b|
    ensures j == |b| || b[j] != ' '
    decreases |b| - i
  {
    if i < |b| && b[i] == ' ' then SkipFrom(b, i + 1) else i
  }

  /** Everything SkipFrom steps over is a space. */
  lemma {:induction false} SkipFromSpaces(b: seq<char>, i: nat)
    requires i <= |b|
    ensures forall k :: i <= k < SkipFrom(b, i) ==> b[k] == ' '
    decreases |b| - i
  {
    if i < |b| && b[i] == ' ' {
      SkipFromSpaces(b, i + 1);
    }
  }

  /** strchr from index i: the index of the first c at or after i. */
  function FindFrom(b: seq<char>, i: nat, c: char): (r: Option<nat>)
    requires i <= |b|
    ensures r.Some? ==> i <= r.value < |b|
    decreases |b| - i
  {
    if i == |b| then None
    else if b[i] == c then Some(i)
    else FindFrom(b, i + 1, c)
  }

  /** Where the word found from index i starts: after the spaces, and after an opening quote. */
  function WordStart(b: seq<char>, i: nat): (start: nat)
    requires i <= |b|
    ensures i <= start <= |b|
  {
    var q := SkipFrom(b, i);
    if q < |b| && b[q] == '\'' then q + 1 else q
  }

  /** The character that closes the word found from index i. */
  function Closer(b: seq<char>, i: nat): char
    requires i <= |b|
  {
    var q := SkipFrom(b, i);
    if q < |b| && b[q] == '\'' then '\'' else ' '
  }

  /** The words of b from index i on. */
  function ScanFrom(b: seq<char>, i: nat): (ws: seq<seq<char>>)
    requires i <= |b|
    ensures |ws| <= |b| - i
    decreases |b| - i
  {
    var start := WordStart(b, i);
    match FindFrom(b, start, Closer(b, i))
    case None => []
    case Some(d) => [b[start..d]] + ScanFrom(b, d + 1)
  }

  /** The words of a whole buffer. */
  function Scan(b: seq<char>): seq<seq<char>> {
    ScanFrom(b, 0)
  }

  /** parseline's result: the words with a trailing `&` word removed, and the background flag
      (true for 1).  A line with no words gives 1. */
  function ParseLineSpec(line: seq<char>): (r: (seq<seq<char>>, bool))
    requires StrLen(line) >= 1
    ensures var words := Scan(Buffer(line));
      && |words| - 1 <= |r.0| <= |words| && r.0 == words[..|r.0|]
      && (|r.0| < |words| <==> words != [] && CharAt(words[|words| - 1], 0) == '&')
      && (r.1 <==> words == [] || |r.0| < |words|)
  {
    var argv := Scan(Buffer(line));
    if argv == [] then ([], true)
    else if CharAt(argv[|argv| - 1], 0) == '&' then (argv[..|argv| - 1], true)
    else (argv, false)
  }

  /** The words still to come when the scan stands at a word that starts at `start` and (if
      delim is present) ends at delim. */
  function Pending(b: seq<char>, start: nat, delim: Option<nat>): seq<seq<char>>
    requires delim.Some? ==> start <= delim.value < |b|
  {
    match delim
    case None => []
    case Some(d) => [b[start..d]] + ScanFrom(b, d + 1)
  }

  /** The loop `while (*buf && (*buf == ' ')) buf++;` from index p. */
  method SkipBlanks(b: seq<char>, p: nat) returns (q: nat)
    requires p <= |b|
    ensures q == SkipFrom(b, p)
  {
    q := p;
    while q < |b| && b[q] == ' '
      invariant p <= q <= |b|
      invariant SkipFrom(b, q) == SkipFrom(b, p)
      decreases |b| - q
    {
      q := q + 1;
    }
  }

  /** strchr over b from index `from`. */
  method StrChr(b: seq<char>, from: nat, c: char) returns (delim: Option<nat>)
    requires from <= |b|
    ensures delim == FindFrom(b, from, c)
  {
    var i := from;
    while i < |b| && b[i] != c
      invariant from <= i <= |b|
      invariant FindFrom(b, i, c) == FindFrom(b, from, c)
      decreases |b| - i
    {
      i := i + 1;
    }
    delim := if i < |b| then Some(i) else None;
  }

  /** One step of the scan from index p: skip spaces, step over an opening quote, and find
      the delimiter that closes the word. */
  method NextWord(b: seq<char>, p: nat) returns (start: nat, delim: Option<nat>)
    requires p <= |b|
    ensures p <= start <= |b|
    ensures delim.Some? ==> start <= delim.value < |b|
    ensures Pending(b, start, delim) == ScanFrom(b, p)
  {
    var q := SkipBlanks(b, p);
    if q < |b| && b[q] == '\'' {
      start := q + 1;
      delim := StrChr(b, start, '\'');
    } else {
      start := q;
      delim := StrChr(b, start, ' ');
    }
  }

  /** A pending word followed by the words after its delimiter. */
  lemma PendingSome(b: seq<char>, start: nat, d: nat)
    requires start <= d < |b|
    ensures Pending(b, start, Some(d)) == [b[start..d]] + ScanFrom(b, d + 1)
  {
  }

  /** One turn of the word loop keeps the words found and the words to come together. */
  lemma PendingStep(buf: seq<char>, argv: seq<seq<char>>, start: nat, d: nat, start': nat,
                    delim': Option<nat>)
    requires start <= d < |buf| && d + 1 <= start' <= |buf|
    requires delim'.Some? ==> start' <= delim'.value < |buf|
    requires argv + Pending(buf, start, Some(d)) == Scan(buf)
    requires Pending(buf, start', delim') == ScanFrom(buf, d + 1)
    ensures (argv + [buf[start..d]]) + Pending(buf, start', delim') == Scan(buf)
  {
    var w, rest := buf[start..d], Pending(buf, start', delim');
    PendingSome(buf, start, d);
    assert (argv + [w]) + rest == argv + ([w] + rest);
  }

  /** The word loop of parseline: collect words until no delimiter is found. */
  method Words(buf: seq<char>) returns (argv: seq<seq<char>>)
    ensures argv == Scan(buf)
  {
    argv := [];
    var start, delim := NextWord(buf, 0);
    while delim.Some?
      invariant start <= |buf|
      invariant delim.Some? ==> start <= delim.value < |buf|
      invariant argv + Pending(buf, start, delim) == Scan(buf)
      decreases |buf| - start
    {
      var d := delim.value;
      var start', delim' := NextWord(buf, d + 1);
      PendingStep(buf, argv, start, d, start', delim');
      argv := argv + [buf[start..d]];
      start, delim := start', delim';
    }
    assert argv + [] == argv;
  }

  /** parseline. */
  method ParseLine(line: seq<char>) returns (argv: seq<seq<char>>, bg: bool)
    requires StrLen(line) >= 1
    ensures (argv, bg) == ParseLineSpec(line)
  {
    var n := StrLen(line);
    var buf := line[..n - 1] + [' '];
    argv := Words(buf);
    if |argv| == 0 {
      return [], true;
    }
    bg := CharAt(argv[|argv| - 1], 0) == '&';
    if bg {
      argv := argv[..|argv| - 1];
    }
  }

  // ---------------------------------------------------------------------------------------
  // Properties.

  /** FindFrom returns the first occurrence, and nothing only when there is none. */
  lemma {:induction false} FindFromFirst(b: seq<char>, i: nat, c: char)
    requires i <= |b|
    ensures FindFrom(b, i, c).Some? ==> b[FindFrom(b, i, c).value] == c
    ensures FindFrom(b, i, c).Some? ==> forall k :: i <= k < FindFrom(b, i, c).value ==> b[k] != c
    ensures FindFrom(b, i, c).None? ==> forall k :: i <= k < |b| ==> b[k] != c
    decreases |b| - i
  {
    if i < |b| && b[i] != c {
      FindFromFirst(b, i + 1, c);
    }
  }

  /** The first occurrence, given as an index, is what FindFrom returns. */
  lemma FindFromAt(b: seq<char>, i: nat, c: char, d: nat)
    requires i <= d < |b| && b[d] == c
    requires forall k :: i <= k < d ==> b[k] != c
    ensures FindFrom(b, i, c) == Some(d)
  {
    FindFromFirst(b, i, c);
  }

  /** Spaces before a word do not change the words. */
  lemma ScanFromSpace(b: seq<char>, i: nat)
    requires i < |b| && b[i] == ' '
    ensures ScanFrom(b, i) == ScanFrom(b, i + 1)
  {
  }

  /** Nothing is left to scan at the end of the buffer. */
  lemma ScanFromEnd(b: seq<char>)
    ensures ScanFrom(b, |b|) == []
  {
  }

  /** A word written without quotes: non-empty, no space, not starting with a quote. */
  predicate Plain(w: seq<char>) {
    w != [] && (forall i :: 0 <= i < |w| ==> w[i] != ' ') && w[0] != '\''
  }

  /** A word the tokenizer can produce: plain, or free of quotes (so it can be quoted). */
  predicate Encodable(w: seq<char>) {
    Plain(w) || forall i :: 0 <= i < |w| ==> w[i] != '\''
  }

  /** The words typed out, each followed by one space. */
  function Unparse(ws: seq<seq<char>>): seq<char> {
    if ws == [] then [] else ws[0] + [' '] + Unparse(ws[1..])
  }

  /** Every word the tokenizer returns is either plain or free of quotes. */
  lemma {:induction false} ScanWordsEncodable(b: seq<char>, i: nat)
    requires i <= |b|
    ensures forall k :: 0 <= k < |ScanFrom(b, i)| ==> Encodable(ScanFrom(b, i)[k])
    decreases |b| - i
  {
    var start := WordStart(b, i);
    var c := Closer(b, i);
    FindFromFirst(b, start, c);
    match FindFrom(b, start, c)
    case None =>
    case Some(d) =>
      ScanWordsEncodable(b, d + 1);
      var w := b[start..d];
      assert forall k :: 0 <= k < |w| ==> w[k] == b[start + k];
      if c == ' ' {
        assert start == SkipFrom(b, i);
        assert Plain(w);
      }
      assert Encodable(w);
  }

  /** A plain word followed by a space scans to itself. */
  lemma ScanPlainAt(b: seq<char>, p: nat, w: seq<char>)
    requires Plain(w)
    requires p + |w| < |b| && b[p..p + |w|] == w && b[p + |w|] == ' '
    ensures ScanFrom(b, p) == [w] + ScanFrom(b, p + |w| + 1)
  {
    assert b[p] == w[0];
    assert forall k :: p <= k < p + |w| ==> b[k] == w[k - p];
    FindFromAt(b, p, ' ', p + |w|);
  }

  /** A word opened by a single quote runs to the next single quote, whatever follows it:
      the closing quote ends the word and the scan goes on right after it. */
  lemma ScanQuotedWord(b: seq<char>, p: nat, w: seq<char>)
    requires forall k :: 0 <= k < |w| ==> w[k] != '\''
    requires p + |w| + 1 < |b| && b[p] == '\'' && b[p + 1..p + 1 + |w|] == w
    requires b[p + 1 + |w|] == '\''
    ensures ScanFrom(b, p) == [w] + ScanFrom(b, p + |w| + 2)
  {
    QuoteCloses(b, p, w);
    assert SkipFrom(b, p) == p;
    assert WordStart(b, p) == p + 1 && Closer(b, p) == '\'';
  }

  /** Text right after a closing quote starts the next word: `'a'b` gives two words. */
  lemma QuoteThenGluedWord()
    ensures Scan("'a'b ") == ["a", "b"]
  {
    var b := "'a'b ";
    ScanFromEnd(b);
    assert b[3..4] == "b";
    ScanPlainAt(b, 3, "b");
    assert b[1..2] == "a";
    ScanQuotedWord(b, 0, "a");
  }

  /** A quote-free word inside quotes, followed by a space, scans to itself. */
  lemma ScanQuotedAt(b: seq<char>, p: nat, w: seq<char>)
    requires forall k :: 0 <= k < |w| ==> w[k] != '\''
    requires p + |w| + 2 < |b| && b[p] == '\'' && b[p + 1..p + 1 + |w|] == w
    requires b[p + 1 + |w|] == '\'' && b[p + 2 + |w|] == ' '
    ensures ScanFrom(b, p) == [w] + ScanFrom(b, p + |w| + 3)
  {
    ScanQuotedWord(b, p, w);
    ScanFromSpace(b, p + |w| + 2);
  }

  /** The quote after a quote-free word is the next quote. */
  lemma QuoteCloses(b: seq<char>, p: nat, w: seq<char>)
    requires forall k :: 0 <= k < |w| ==> w[k] != '\''
    requires p + |w| + 1 < |b| && b[p + 1..p + 1 + |w|] == w && b[p + 1 + |w|] == '\''
    ensures FindFrom(b, p + 1, '\'') == Some(p + 1 + |w|)
  {
    assert forall k :: p + 1 <= k < p + 1 + |w| ==> b[k] == w[k - p - 1];
    FindFromAt(b, p + 1, '\'', p + 1 + |w|);
  }

  /** A slice of a slice is a slice. */
  lemma SliceOfSlice(b: seq<char>, p: nat, n: nat, i: nat, j: nat)
    requires p + n <= |b| && i <= j <= n
    ensures b[p..p + n][i..j] == b[p + i..p + j]
  {
    var x, y := b[p..p + n][i..j], b[p + i..p + j];
    forall k | 0 <= k < j - i
      ensures x[k] == y[k]
    {
      assert x[k] == b[p..p + n][i + k];
    }
  }

  /** The typed-out form of one word and the rest, laid out index by index. */
  lemma UnparseParts(ws: seq<seq<char>>)
    requires ws != []
    ensures var u := Unparse(ws); var w := ws[0];
      |u| == |w| + 1 + |Unparse(ws[1..])| &&
      u[..|w|] == w && u[|w|] == ' ' && u[|w| + 1..] == Unparse(ws[1..])
  {
  }

  /** Plain words typed out one after another in b, from index p up to index f. */
  ghost predicate TypedAt(b: seq<char>, p: nat, ws: seq<seq<char>>, f: nat)
    decreases ws
  {
    p <= f <= |b| &&
    if ws == [] then p == f
    else
      var w := ws[0];
      Plain(w) && p + |w| < f && b[p..p + |w|] == w && b[p + |w|] == ' ' &&
      TypedAt(b, p + |w| + 1, ws[1..], f)
  }

  /** Where the typed-out words sit in a buffer, they sit one after another. */
  lemma {:induction false} UnparseTyped(b: seq<char>, p: nat, ws: seq<seq<char>>)
    requires forall i :: 0 <= i < |ws| ==> Plain(ws[i])
    requires p + |Unparse(ws)| <= |b| && b[p..p + |Unparse(ws)|] == Unparse(ws)
    ensures TypedAt(b, p, ws, p + |Unparse(ws)|)
    decreases ws
  {
    if ws != [] {
      var u := Unparse(ws);
      var w := ws[0];
      UnparseParts(ws);
      SliceOfSlice(b, p, |u|, 0, |w|);
      SliceOfSlice(b, p, |u|, |w| + 1, |u|);
      assert b[p + |w|] == u[|w|];
      assert forall i :: 0 <= i < |ws[1..]| ==> ws[1..][i] == ws[i + 1];
      UnparseTyped(b, p + |w| + 1, ws[1..]);
    }
  }

  /** Two scan steps in a row. */
  lemma ScanChain(b: seq<char>, p: nat, e: nat, f: nat, w: seq<char>, ws: seq<seq<char>>)
    requires p <= |b| && e <= |b| && f <= |b|
    requires ScanFrom(b, p) == [w] + ScanFrom(b, e)
    requires ScanFrom(b, e) == ws + ScanFrom(b, f)
    ensures ScanFrom(b, p) == ([w] + ws) + ScanFrom(b, f)
  {
  }

  /** The first of the typed-out plain words scans to itself. */
  lemma ScanTypedFirst(b: seq<char>, p: nat, ws: seq<seq<char>>, f: nat)
    requires ws != []
    requires TypedAt(b, p, ws, f)
    ensures p + |ws[0]| + 1 <= |b|
    ensures TypedAt(b, p + |ws[0]| + 1, ws[1..], f)
    ensures ScanFrom(b, p) == [ws[0]] + ScanFrom(b, p + |ws[0]| + 1)
  {
    ScanPlainAt(b, p, ws[0]);
  }

  /** Typed-out plain words scan back to the words, followed by whatever the rest of the
      buffer scans to. */
  lemma {:induction false} ScanTyped(b: seq<char>, p: nat, ws: seq<seq<char>>, f: nat)
    requires TypedAt(b, p, ws, f)
    ensures ScanFrom(b, p) == ws + ScanFrom(b, f)
    decreases ws
  {
    if ws == [] {
      assert p == f;
    } else {
      var e := p + |ws[0]| + 1;
      ScanTypedFirst(b, p, ws, f);
      ScanTyped(b, e, ws[1..], f);
      ScanChain(b, p, e, f, ws[0], ws[1..]);
      assert [ws[0]] + ws[1..] == ws;
    }
  }

  /** Typing plain words out and scanning them back gives the words, followed by whatever the
      rest of the buffer scans to. */
  lemma ScanUnparse(b: seq<char>, p: nat, ws: seq<seq<char>>)
    requires forall i :: 0 <= i < |ws| ==> Plain(ws[i])
    requires p + |Unparse(ws)| <= |b| && b[p..p + |Unparse(ws)|] == Unparse(ws)
    ensures ScanFrom(b, p) == ws + ScanFrom(b, p + |Unparse(ws)|)
  {
    UnparseTyped(b, p, ws);
    ScanTyped(b, p, ws, p + |Unparse(ws)|);
  }

  /** Only spaces: no words. */
  lemma {:induction false} ScanAllSpaces(b: seq<char>, i: nat)
    requires i <= |b|
    requires forall k :: i <= k < |b| ==> b[k] == ' '
    ensures ScanFrom(b, i) == []
    decreases |b| - i
  {
    if i < |b| {
      ScanFromSpace(b, i);
      ScanAllSpaces(b, i + 1);
    }
  }

  /** A line that is blank up to its last character has no words and returns 1. */
  lemma BlankLine(line: seq<char>)
    requires StrLen(line) >= 1
    requires forall i :: 0 <= i < StrLen(line) - 1 ==> line[i] == ' '
    ensures ParseLineSpec(line) == ([], true)
  {
    var b := Buffer(line);
    assert forall k :: 0 <= k < |b| ==> b[k] == ' ';
    ScanAllSpaces(b, 0);
  }

  /** Words without NUL type out to a line without NUL. */
  lemma {:induction false} UnparseWithoutNul(ws: seq<seq<char>>)
    requires forall i :: 0 <= i < |ws| ==> '\0' !in ws[i]
    ensures '\0' !in Unparse(ws)
    decreases ws
  {
    if ws != [] {
      UnparseWithoutNul(ws[1..]);
      assert Unparse(ws) == ws[0] + [' '] + Unparse(ws[1..]);
    }
  }

  /** The buffer of a NUL-free line: its last character becomes a space. */
  lemma BufferOf(u: seq<char>, nl: char)
    requires '\0' !in u && nl != '\0'
    ensures StrLen(u + [nl]) == |u| + 1
    ensures Buffer(u + [nl]) == u + [' ']
  {
    StrLenWithoutNul(u + [nl]);
    assert (u + [nl])[..|u|] == u;
  }

  /** Typed-out plain words at the front of a buffer scan back to themselves. */
  lemma ScanPrefix(ws: seq<seq<char>>, tail: seq<char>)
    requires forall i :: 0 <= i < |ws| ==> Plain(ws[i])
    ensures Scan(Unparse(ws) + tail) == ws + ScanFrom(Unparse(ws) + tail, |Unparse(ws)|)
  {
    var b := Unparse(ws) + tail;
    assert b[0..|Unparse(ws)|] == Unparse(ws);
    ScanUnparse(b, 0, ws);
  }

  /** A final space leaves no word behind. */
  lemma TrailingSpace(b: seq<char>)
    requires |b| >= 1 && b[|b| - 1] == ' '
    ensures ScanFrom(b, |b| - 1) == []
  {
    ScanFromSpace(b, |b| - 1);
    ScanFromEnd(b);
  }

  /** A final `& ` is one last word `&`. */
  lemma TrailingAmpersand(b: seq<char>)
    requires |b| >= 2 && b[|b| - 2] == '&' && b[|b| - 1] == ' '
    ensures ScanFrom(b, |b| - 2) == [['&']]
  {
    assert b[|b| - 2..|b| - 1] == ['&'];
    ScanPlainAt(b, |b| - 2, ['&']);
    ScanFromEnd(b);
  }

  /** A command typed out with plain words and ended by a newline parses back to its words,
      in the foreground, unless its last word starts with `&`; no words at all give 1. */
  lemma ParseForeground(ws: seq<seq<char>>, nl: char)
    requires forall i :: 0 <= i < |ws| ==> Plain(ws[i]) && '\0' !in ws[i]
    requires ws != [] ==> Plain(ws[|ws| - 1]) && ws[|ws| - 1][0] != '&'
    requires nl != '\0'
    ensures StrLen(Unparse(ws) + [nl]) >= 1
    ensures ParseLineSpec(Unparse(ws) + [nl]) == (ws, ws == [])
  {
    UnparseWithoutNul(ws);
    BufferOf(Unparse(ws), nl);
    ScanForeground(ws);
  }

  /** Typed-out plain words followed by the space that replaced the newline scan to those
      words. */
  lemma ScanForeground(ws: seq<seq<char>>)
    requires forall i :: 0 <= i < |ws| ==> Plain(ws[i])
    ensures Scan(Unparse(ws) + [' ']) == ws
  {
    ScanPrefix(ws, [' ']);
    TrailingSpace(Unparse(ws) + [' ']);
    assert ws + [] == ws;
  }

  /** The buffer of a NUL-free line ended by `&` and a newline. */
  lemma BackgroundBuffer(u: seq<char>, nl: char)
    requires '\0' !in u && nl != '\0'
    ensures StrLen(u + ['&', nl]) >= 1
    ensures Buffer(u + ['&', nl]) == u + ['&', ' ']
  {
    var v := u + ['&'];
    assert '\0' !in v;
    assert v + [nl] == u + ['&', nl];
    assert v + [' '] == u + ['&', ' '];
    BufferOf(v, nl);
  }

  /** Typed-out plain words followed by `& ` scan to those words and the word `&`. */
  lemma ScanBackground(ws: seq<seq<char>>)
    requires forall i :: 0 <= i < |ws| ==> Plain(ws[i])
    ensures Scan(Unparse(ws) + ['&', ' ']) == ws + [['&']]
  {
    var b := Unparse(ws) + ['&', ' '];
    ScanPrefix(ws, ['&', ' ']);
    assert |Unparse(ws)| == |b| - 2;
    TrailingAmpersand(b);
  }

  /** The same command followed by `&` and a newline parses back to its words, in the
      background. */
  lemma ParseBackground(ws: seq<seq<char>>, nl: char)
    requires forall i :: 0 <= i < |ws| ==> Plain(ws[i]) && '\0' !in ws[i]
    requires nl != '\0'
    ensures StrLen(Unparse(ws) + ['&', nl]) >= 1
    ensures ParseLineSpec(Unparse(ws) + ['&', nl]) == (ws, true)
  {
    UnparseWithoutNul(ws);
    BackgroundBuffer(Unparse(ws), nl);
    ScanBackground(ws);
    var argv := ws + [['&']];
    assert argv[..|argv| - 1] == ws;
  }
}

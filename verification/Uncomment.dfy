/** Uncommenting a block of text: find it, scan it line by line, trim the prefix of each line, splice it back. */
module Uncomment {
  import opened Documents

  /** bufio.MaxScanTokenSize: a line must leave room for its end in a buffer of this size. */
  const TOKEN_LIMIT := 65536

  // --- Searching and joining ---

  /** strings.Index */
  function IndexFrom(s: string, t: string, i: nat): (r: Option<nat>)
    requires i <= |s|
    ensures r.Some? ==> i <= r.value && r.value + |t| <= |s|
    decreases |s| - i
  {
    if t <= s[i..] then Some(i)
    else if i == |s| then None
    else IndexFrom(s, t, i + 1)
  }

  function TrimPrefix(s: string, prefix: string): string {
    if prefix <= s then s[|prefix|..] else s
  }

  function DropCR(line: string): string {
    if line != "" && line[|line| - 1] == '\r' then line[..|line| - 1] else line
  }

  function Join(lines: seq<string>): string {
    if lines == [] then ""
    else if |lines| == 1 then lines[0]
    else lines[0] + "\n" + Join(lines[1..])
  }

  /** Where the first line of a text ends. */
  function LineEnd(text: string): (n: nat)
    ensures n <= |text| && '\n' !in text[..n] && (n < |text| ==> text[n] == '\n')
  {
    if text == "" || text[0] == '\n' then 0
    else
      var n := LineEnd(text[1..]);
      assert text[..n + 1] == [text[0]] + text[1..][..n];
      n + 1
  }

  // --- The scanner ---

  /** The lines a scanner yields; it stops for good at a line that does not fit. */
  function Tokens(text: string): seq<string> {
    if text == "" then []
    else
      var n := LineEnd(text);
      if n >= TOKEN_LIMIT then []
      else [DropCR(text[..n])] + if n == |text| then [] else Tokens(text[n + 1..])
  }

  lemma TokensUnfold(text: string)
    requires text != "" && LineEnd(text) < TOKEN_LIMIT
    ensures var n := LineEnd(text);
            Tokens(text) == [DropCR(text[..n])] + Tokens(if n == |text| then "" else text[n + 1..])
  {
  }

  class Scanner {
    var rest: string
    var token: string

    constructor (text: string)
      ensures rest == text
    {
      rest, token := text, "";
    }

    method Scan() returns (ok: bool)
      modifies this
      ensures ok <==> Tokens(old(rest)) != []
      ensures ok ==> Tokens(old(rest)) == [token] + Tokens(rest) && |rest| < |old(rest)|
    {
      if rest == "" {
        return false;
      }
      var n := LineEnd(rest);
      if n >= TOKEN_LIMIT {
        return false;
      }
      TokensUnfold(rest);
      token := DropCR(rest[..n]);
      rest := if n == |rest| then "" else rest[n + 1..];
      return true;
    }
  }

  // --- UncommentCode ---

  datatype Result = NotFound | Unchanged | Written(text: string)

  function Trimmed(tokens: seq<string>, prefix: string): seq<string> {
    seq(|tokens|, i requires 0 <= i < |tokens| => TrimPrefix(tokens[i], prefix))
  }

  function Uncommented(content: string, target: string, prefix: string): Result {
    match IndexFrom(content, target, 0)
    case None => NotFound
    case Some(i) =>
      var lines := Trimmed(Tokens(target), prefix);
      if lines == [] then Unchanged
      else Written(content[..i] + Join(lines) + content[i + |target|..])
  }

  lemma TrimmedCons(first: string, rest: seq<string>, prefix: string)
    ensures Trimmed([first] + rest, prefix) == [TrimPrefix(first, prefix)] + Trimmed(rest, prefix)
  {
  }

  /** What is still to be written after a token and the lines behind it. */
  function Ending(tokens: seq<string>, prefix: string): string {
    if tokens == [] then "" else "\n" + Join(Trimmed(tokens, prefix))
  }

  lemma JoinTrimmed(first: string, rest: seq<string>, prefix: string)
    ensures Join(Trimmed([first] + rest, prefix)) == TrimPrefix(first, prefix) + Ending(rest, prefix)
  {
    TrimmedCons(first, rest, prefix);
    var lines := [TrimPrefix(first, prefix)] + Trimmed(rest, prefix);
    assert lines[1..] == Trimmed(rest, prefix);
    assert lines[0] + "" == lines[0];
  }

  lemma Associate(a: string, b: string, c: string)
    ensures a + (b + c) == a + b + c
  {
  }

  /** The loop: write the trimmed token, and a newline unless it was the last. */
  method WriteLines(scanner: Scanner, prefix: string, start: string) returns (out: string)
    modifies scanner
    ensures out == start + Join(Trimmed([old(scanner.token)] + Tokens(old(scanner.rest)), prefix))
  {
    out := start;
    ghost var all := start + Join(Trimmed([scanner.token] + Tokens(scanner.rest), prefix));
    while true
      invariant all == out + Join(Trimmed([scanner.token] + Tokens(scanner.rest), prefix))
      decreases |scanner.rest|
    {
      ghost var pending := Tokens(scanner.rest);
      JoinTrimmed(scanner.token, pending, prefix);
      Associate(out, TrimPrefix(scanner.token, prefix), Ending(pending, prefix));
      out := out + TrimPrefix(scanner.token, prefix);
      var ok := scanner.Scan();
      if !ok {
        assert out + "" == out;
        return;
      }
      Associate(out, "\n", Join(Trimmed(pending, prefix)));
      out := out + "\n";
    }
  }

  lemma WrittenBack(content: string, target: string, prefix: string, i: nat, token: string, rest: seq<string>)
    requires IndexFrom(content, target, 0) == Some(i) && Tokens(target) == [token] + rest
    ensures Uncommented(content, target, prefix) ==
            Written(content[..i] + Join(Trimmed([token] + rest, prefix)) + content[i + |target|..])
  {
  }

  method UncommentCode(content: string, target: string, prefix: string) returns (r: Result)
    ensures r == Uncommented(content, target, prefix)
  {
    var index := IndexFrom(content, target, 0);
    if index.None? {
      return NotFound;
    }
    var i := index.value;
    var scanner := new Scanner(target);
    var ok := scanner.Scan();
    if !ok {
      return Unchanged;
    }
    WrittenBack(content, target, prefix, i, scanner.token, Tokens(scanner.rest));
    var out := WriteLines(scanner, prefix, content[..i]);
    return Written(out + content[i + |target|..]);
  }

  // --- Commenting out, and back ---

  function Commented(lines: seq<string>, prefix: string): seq<string> {
    seq(|lines|, i requires 0 <= i < |lines| => prefix + lines[i])
  }

  predicate OneLine(s: string) {
    '\n' !in s
  }

  predicate OneLineEach(lines: seq<string>) {
    forall i :: 0 <= i < |lines| ==> OneLine(lines[i])
  }

  /** A commented line that the scanner hands over whole: it fits, and does not end in a carriage return. (A lone
      carriage return as the whole prefix of an empty line is dropped by the scanner instead of by the trimming.) */
  predicate Restorable(line: string, prefix: string) {
    && |prefix + line| < TOKEN_LIMIT
    && (DropCR(prefix + line) == prefix + line || (prefix == "\r" && line == ""))
  }

  /** The lines that come back from a block of whole lines. */
  function Scanned(lines: seq<string>): seq<string> {
    if lines == [] || |lines[0]| >= TOKEN_LIMIT then []
    else [DropCR(lines[0])] + Scanned(lines[1..])
  }

  lemma {:induction false} LineEndOf(line: string, rest: string)
    requires OneLine(line)
    requires rest == "" || rest[0] == '\n'
    ensures LineEnd(line + rest) == |line|
  {
    if line == "" {
      assert line + rest == rest;
    } else {
      assert line[0] in line;
      assert (line + rest)[1..] == line[1..] + rest;
      LineEndOf(line[1..], rest);
    }
  }

  /** An empty last line, which is what a trailing newline leaves, gives no token. */
  function WithoutEmptyEnd(lines: seq<string>): seq<string>
    requires lines != []
  {
    if lines[|lines| - 1] == "" then lines[..|lines| - 1] else lines
  }

  lemma TokensOfLine(line: string)
    requires OneLine(line)
    ensures Tokens(line) == if line == "" || |line| >= TOKEN_LIMIT then [] else [DropCR(line)]
  {
    assert line + "" == line;
    LineEndOf(line, "");
    assert line[..|line|] == line;
  }

  lemma TokensOfMore(line: string, more: string)
    requires OneLine(line)
    ensures Tokens(line + "\n" + more) == if |line| >= TOKEN_LIMIT then [] else [DropCR(line)] + Tokens(more)
  {
    var text := line + "\n" + more;
    assert text == line + ("\n" + more);
    LineEndOf(line, "\n" + more);
    assert text[..|line|] == line && text[|line| + 1..] == more;
  }

  lemma ScannedMore(lines: seq<string>)
    requires |lines| > 1
    ensures Scanned(WithoutEmptyEnd(lines)) ==
            if |lines[0]| >= TOKEN_LIMIT then [] else [DropCR(lines[0])] + Scanned(WithoutEmptyEnd(lines[1..]))
  {
    var body, rest := WithoutEmptyEnd(lines), lines[1..];
    assert body != [] && body[0] == lines[0] && rest[|rest| - 1] == lines[|lines| - 1];
    if lines[|lines| - 1] == "" {
      assert body[1..] == rest[..|rest| - 1];
    } else {
      assert body[1..] == rest;
    }
  }

  lemma {:induction false} TokensOfJoin(lines: seq<string>)
    requires lines != [] && OneLineEach(lines)
    ensures Tokens(Join(lines)) == Scanned(WithoutEmptyEnd(lines))
  {
    if |lines| == 1 {
      TokensOfLine(lines[0]);
      assert Scanned(lines[1..]) == [] && Scanned(lines[..0]) == [];
    } else {
      TokensOfMore(lines[0], Join(lines[1..]));
      TokensOfJoin(lines[1..]);
      ScannedMore(lines);
    }
  }

  /** Every text is made of lines. */
  lemma {:induction false} LinesOf(text: string) returns (lines: seq<string>)
    ensures lines != [] && OneLineEach(lines) && Join(lines) == text
    decreases |text|
  {
    var n := LineEnd(text);
    if n == |text| {
      lines := [text];
      assert text[..n] == text;
    } else {
      var rest := LinesOf(text[n + 1..]);
      lines := [text[..n]] + rest;
      assert lines[1..] == rest;
      assert text == text[..n] + "\n" + text[n + 1..];
    }
  }

  /** The tokens are the lines up to the first that does not fit, each without its carriage return. */
  lemma {:induction false} ScannedExactly(lines: seq<string>)
    ensures var tokens := Scanned(lines);
            && |tokens| <= |lines|
            && (forall k :: 0 <= k < |tokens| ==> |lines[k]| < TOKEN_LIMIT && tokens[k] == DropCR(lines[k]))
            && (|tokens| < |lines| ==> |lines[|tokens|]| >= TOKEN_LIMIT)
  {
    if lines == [] || |lines[0]| >= TOKEN_LIMIT {
    } else {
      ScannedExactly(lines[1..]);
      assert forall k :: 1 <= k < |lines| ==> lines[k] == lines[1..][k - 1];
    }
  }

  /** A text falls into lines in one way only. */
  lemma {:induction false} JoinInjective(a: seq<string>, b: seq<string>)
    requires a != [] && b != [] && OneLineEach(a) && OneLineEach(b)
    requires Join(a) == Join(b)
    ensures a == b
    decreases |a|
  {
    var tailA := if |a| == 1 then "" else "\n" + Join(a[1..]);
    var tailB := if |b| == 1 then "" else "\n" + Join(b[1..]);
    assert Join(a) == a[0] + tailA && Join(b) == b[0] + tailB;
    LineEndOf(a[0], tailA);
    LineEndOf(b[0], tailB);
    assert a[0] == Join(a)[..|a[0]|] == b[0];
    assert tailA == Join(a)[|a[0]|..] == tailB;
    if |a| == 1 || |b| == 1 {
    } else {
      assert Join(a[1..]) == tailA[1..] == Join(b[1..]);
      JoinInjective(a[1..], b[1..]);
      assert a == [a[0]] + a[1..] && b == [b[0]] + b[1..];
    }
  }

  lemma RestoredLine(line: string, prefix: string)
    requires prefix != ""
    ensures var t := DropCR(prefix + line);
            TrimPrefix(t, prefix) == line <==> t == prefix + line || (prefix == "\r" && line == "")
  {
    var whole := prefix + line;
    var t := DropCR(whole);
    if t == whole {
      assert prefix <= t;
      assert t[|prefix|..] == line;
    } else if line == "" {
      assert whole == prefix;
      assert !(prefix <= t);
    } else {
      assert t == prefix + line[..|line| - 1];
      assert t[|prefix|..] == line[..|line| - 1];
    }
  }

  lemma SameCons(x: string, xs: seq<string>, y: string, ys: seq<string>)
    ensures [x] + xs == [y] + ys <==> x == y && xs == ys
  {
    assert ([x] + xs)[1..] == xs && ([y] + ys)[1..] == ys;
  }

  ghost predicate AllRestorable(lines: seq<string>, prefix: string) {
    forall i :: 0 <= i < |lines| ==> Restorable(lines[i], prefix)
  }

  lemma RestorableCons(first: string, rest: seq<string>, prefix: string)
    ensures AllRestorable([first] + rest, prefix) <==> Restorable(first, prefix) && AllRestorable(rest, prefix)
  {
    var lines := [first] + rest;
    assert lines[0] == first && forall i :: 0 <= i < |rest| ==> rest[i] == lines[i + 1];
  }

  lemma TrimmedOneLine(line: string, prefix: string)
    requires OneLine(prefix) && OneLine(line)
    ensures OneLine(TrimPrefix(DropCR(prefix + line), prefix))
  {
  }

  lemma OneLineCons(first: string, rest: seq<string>)
    requires OneLine(first) && OneLineEach(rest)
    ensures OneLineEach([first] + rest)
  {
  }

  /** One line more, if it fits. */
  lemma RestoredCons(first: string, rest: seq<string>, prefix: string, back: seq<string>)
    requires prefix != "" && OneLine(prefix) && OneLine(first) && |prefix + first| < TOKEN_LIMIT
    requires OneLineEach(back) && (back == rest <==> AllRestorable(rest, prefix))
    ensures var back' := [TrimPrefix(DropCR(prefix + first), prefix)] + back;
            OneLineEach(back') && (back' == [first] + rest <==> AllRestorable([first] + rest, prefix))
  {
    var trimmed := TrimPrefix(DropCR(prefix + first), prefix);
    RestoredLine(first, prefix);
    TrimmedOneLine(first, prefix);
    RestorableCons(first, rest, prefix);
    SameCons(trimmed, back, first, rest);
    OneLineCons(trimmed, back);
  }

  /** What comes back from a block and from the rest of it. */
  lemma BackCons(first: string, rest: seq<string>, prefix: string)
    ensures Trimmed(Scanned(Commented([first] + rest, prefix)), prefix) ==
            if |prefix + first| >= TOKEN_LIMIT then []
            else [TrimPrefix(DropCR(prefix + first), prefix)] + Trimmed(Scanned(Commented(rest, prefix)), prefix)
  {
    var commented := Commented([first] + rest, prefix);
    assert commented[0] == prefix + first && commented[1..] == Commented(rest, prefix);
    if |prefix + first| < TOKEN_LIMIT {
      TrimmedCons(DropCR(prefix + first), Scanned(Commented(rest, prefix)), prefix);
    }
  }

  lemma {:induction false} RestoredExactly(lines: seq<string>, prefix: string)
    requires prefix != "" && OneLine(prefix) && OneLineEach(lines)
    ensures var back := Trimmed(Scanned(Commented(lines, prefix)), prefix);
            OneLineEach(back) && (back == lines <==> AllRestorable(lines, prefix))
  {
    if lines == [] {
    } else {
      var first, rest := lines[0], lines[1..];
      assert lines == [first] + rest;
      RestoredExactly(rest, prefix);
      BackCons(first, rest, prefix);
      if |prefix + first| < TOKEN_LIMIT {
        RestoredCons(first, rest, prefix, Trimmed(Scanned(Commented(rest, prefix)), prefix));
      } else {
        RestorableCons(first, rest, prefix);
      }
    }
  }

  // --- Any target ---

  predicate OccursAt(content: string, target: string, i: nat) {
    i + |target| <= |content| && content[i..i + |target|] == target
  }

  ghost predicate FirstAt(content: string, target: string, i: nat) {
    OccursAt(content, target, i) && forall j: nat :: j < i ==> !OccursAt(content, target, j)
  }

  /** What a line becomes: a carriage return at its end goes, and then the prefix, if it begins with it. */
  predicate Becomes(line: string, prefix: string, out: string) {
    var text := if line != "" && line[|line| - 1] == '\r' then line[..|line| - 1] else line;
    if prefix <= text then text == prefix + out else out == text
  }

  /** The lines written for those of a target: all but an empty last one, up to the first that does not fit. */
  ghost predicate WrittenFor(lines: seq<string>, prefix: string, out: seq<string>) {
    && |out| <= |lines|
    && (forall k :: 0 <= k < |out| ==> |lines[k]| < TOKEN_LIMIT && Becomes(lines[k], prefix, out[k]))
    && (|out| < |lines| ==> |lines[|out|]| >= TOKEN_LIMIT || (|out| == |lines| - 1 && lines[|out|] == ""))
    && (|out| == |lines| && lines != [] ==> lines[|lines| - 1] != "")
  }

  lemma OccursExactly(content: string, target: string, j: nat)
    requires j <= |content|
    ensures target <= content[j..] <==> OccursAt(content, target, j)
  {
    if target <= content[j..] {
      assert content[j..][..|target|] == content[j..j + |target|];
    }
    if OccursAt(content, target, j) {
      assert content[j..][..|target|] == target;
    }
  }

  /** The first occurrence at `from` or later. */
  ghost predicate FirstFrom(content: string, target: string, from: nat, i: nat) {
    from <= i && OccursAt(content, target, i) && forall j: nat :: from <= j < i ==> !OccursAt(content, target, j)
  }

  lemma {:induction false} IndexFromExactly(content: string, target: string, from: nat)
    requires from <= |content|
    ensures var r := IndexFrom(content, target, from);
            && (r.Some? ==> FirstFrom(content, target, from, r.value))
            && (r.None? ==> forall j: nat :: from <= j ==> !OccursAt(content, target, j))
    decreases |content| - from
  {
    OccursExactly(content, target, from);
    if target <= content[from..] || from == |content| {
    } else {
      IndexFromExactly(content, target, from + 1);
    }
  }

  lemma FoundExactly(content: string, target: string)
    ensures IndexFrom(content, target, 0).None? <==> forall j: nat :: !OccursAt(content, target, j)
    ensures IndexFrom(content, target, 0).Some? ==> FirstAt(content, target, IndexFrom(content, target, 0).value)
  {
    IndexFromExactly(content, target, 0);
  }

  lemma TrimmedLine(line: string, prefix: string)
    ensures Becomes(line, prefix, TrimPrefix(DropCR(line), prefix))
  {
    var text := DropCR(line);
    if prefix <= text {
      assert text == prefix + text[|prefix|..];
    }
  }

  lemma TrimmedLines(lines: seq<string>, prefix: string)
    requires lines != [] && OneLineEach(lines)
    ensures WrittenFor(lines, prefix, Trimmed(Tokens(Join(lines)), prefix))
  {
    var body := WithoutEmptyEnd(lines);
    TokensOfJoin(lines);
    ScannedExactly(body);
    forall k | 0 <= k < |Scanned(body)|
      ensures Becomes(lines[k], prefix, Trimmed(Scanned(body), prefix)[k])
    {
      assert body[k] == lines[k];
      TrimmedLine(lines[k], prefix);
    }
  }

  /** UncommentCode on any contents, for any target and prefix. It fails exactly when the target occurs nowhere. It
      silently does nothing exactly when the target occurs and is empty, or begins with a line that does not fit.
      Otherwise the first occurrence is replaced by its lines, trimmed; a line without the prefix stays as it is; and
      what stands from the first line that does not fit on is lost. */
  lemma UncommentedExactly(content: string, target: string, prefix: string, lines: seq<string>)
    returns (out: seq<string>)
    requires lines != [] && OneLineEach(lines) && Join(lines) == target
    ensures WrittenFor(lines, prefix, out)
    ensures var r := Uncommented(content, target, prefix);
            && (r.NotFound? <==> forall i: nat :: !OccursAt(content, target, i))
            && (r.Unchanged? <==>
                  (exists i: nat :: OccursAt(content, target, i)) && (target == "" || |lines[0]| >= TOKEN_LIMIT))
            && (r.Written? ==>
                  exists i: nat ::
                    FirstAt(content, target, i) && r.text == content[..i] + Join(out) + content[i + |target|..])
  {
    out := Trimmed(Tokens(target), prefix);
    TrimmedLines(lines, prefix);
    FoundExactly(content, target);
    EmptyOut(lines, prefix, out);
  }

  lemma EmptyOut(lines: seq<string>, prefix: string, out: seq<string>)
    requires lines != [] && OneLineEach(lines) && WrittenFor(lines, prefix, out)
    ensures out == [] <==> Join(lines) == "" || |lines[0]| >= TOKEN_LIMIT
  {
    if |lines| > 1 {
      assert Join(lines) == lines[0] + "\n" + Join(lines[1..]);
    }
  }

  /** Commenting out a block and uncommenting its first occurrence restores the block, with the bytes around it
      intact, exactly when every commented line is short enough and does not end in a carriage return. */
  lemma RoundTrip(before: string, lines: seq<string>, after: string, prefix: string)
    requires lines != [] && OneLineEach(lines)
    requires prefix != "" && OneLine(prefix)
    requires var target := Join(Commented(lines, prefix));
             IndexFrom(before + target + after, target, 0) == Some(|before|)
    ensures var target := Join(Commented(lines, prefix));
            Uncommented(before + target + after, target, prefix) == Written(before + Join(lines) + after) <==>
            forall i :: 0 <= i < |lines| ==> Restorable(lines[i], prefix)
  {
    var commented := Commented(lines, prefix);
    var target := Join(commented);
    var content := before + target + after;
    assert forall i :: 0 <= i < |lines| ==> commented[i] == prefix + lines[i];
    assert commented[|lines| - 1] != "";
    TokensOfJoin(commented);
    RestoredExactly(lines, prefix);
    var back := Trimmed(Scanned(commented), prefix);
    assert content[..|before|] == before && content[|before| + |target|..] == after;
    if back != [] && before + Join(back) + after == before + Join(lines) + after {
      Cancel(before, Join(back), Join(lines), after);
      JoinInjective(back, lines);
    }
  }

  lemma Cancel(a: string, b: string, c: string, d: string)
    requires a + b + d == a + c + d
    ensures b == c
  {
    assert |b| == |c|;
    assert (a + b + d)[|a|..|a| + |b|] == b && (a + c + d)[|a|..|a| + |c|] == c;
  }
}

/**
 * The two Go library splitters readHashes relies on: bufio.ScanLines (the
 * default split function of bufio.Scanner) and strings.Split with a
 * one-character separator. Text is a sequence of chars, each standing for one
 * byte of the response body.
 */
module Lines {

  /** Position of the first occurrence of c in s. */
  function IndexOf(s: string, c: char): (i: nat)
    requires c in s
    ensures i < |s| && s[i] == c && c !in s[..i]
  {
    if s[0] == c then 0 else IndexOf(s[1..], c) + 1
  }

  /** Removes one trailing carriage return, as bufio's dropCR does. */
  function DropCR(s: string): (r: string)
    ensures r == s || s == r + ['\r']
    ensures r != s <==> |s| > 0 && s[|s| - 1] == '\r'
  {
    if |s| > 0 && s[|s| - 1] == '\r' then s[..|s| - 1] else s
  }

  /** The tokens a bufio.Scanner with ScanLines yields for body: one per
      '\n'-terminated line with one trailing '\r' removed, then the
      unterminated rest if it is non-empty; nothing after a final '\n'. */
  function ScanLines(body: string): (lines: seq<string>)
    ensures forall k :: 0 <= k < |lines| ==> '\n' !in lines[k]
    ensures (lines == []) == (body == [])
    decreases |body|
  {
    if body == [] then []
    else if '\n' in body then
      var i := IndexOf(body, '\n');
      [DropCR(body[..i])] + ScanLines(body[i + 1..])
    else [DropCR(body)]
  }

  /** Each line followed by a '\n': the text a well-formed response body has. */
  function Terminated(lines: seq<string>): (body: string)
  {
    if lines == [] then [] else lines[0] + ['\n'] + Terminated(lines[1..])
  }

  lemma ScanLinesCons(line: string, rest: string)
    requires '\n' !in line
    ensures ScanLines(line + ['\n'] + rest) == [DropCR(line)] + ScanLines(rest)
  {
    var body := line + ['\n'] + rest;
    assert body[|line|] == '\n';
    var i := IndexOf(body, '\n');
    assert i == |line|;
    assert body[..i] == line;
    assert body[i + 1..] == rest;
  }

  /** Scanning a body of '\n'-terminated lines gives back exactly those lines,
      in order, when none of them ends in '\r'. */
  lemma {:induction false} ScanTerminated(lines: seq<string>)
    requires forall k :: 0 <= k < |lines| ==> '\n' !in lines[k] && DropCR(lines[k]) == lines[k]
    ensures ScanLines(Terminated(lines)) == lines
  {
    if lines != [] {
      ScanLinesCons(lines[0], Terminated(lines[1..]));
      ScanTerminated(lines[1..]);
    }
  }

  /** strings.Split(s, string(sep)): the pieces of s between occurrences of sep. */
  function Split(s: string, sep: char): (parts: seq<string>)
    ensures |parts| >= 1
    ensures forall k :: 0 <= k < |parts| ==> sep !in parts[k]
    decreases |s|
  {
    if sep !in s then [s]
    else
      var i := IndexOf(s, sep);
      [s[..i]] + Split(s[i + 1..], sep)
  }

  /** Split gives one more piece than there are separators in s. */
  lemma {:induction false} SplitCount(s: string, sep: char)
    ensures |Split(s, sep)| == multiset(s)[sep] + 1
    decreases |s|
  {
    if sep !in s {
      assert multiset(s)[sep] == 0;
    } else {
      var i := IndexOf(s, sep);
      SplitCount(s[i + 1..], sep);
      assert s == s[..i] + [sep] + s[i + 1..];
      assert multiset(s) == multiset(s[..i]) + multiset([sep]) + multiset(s[i + 1..]);
    }
  }

  /** strings.Join(parts, string(sep)). */
  function Join(parts: seq<string>, sep: char): string
    requires |parts| >= 1
  {
    if |parts| == 1 then parts[0] else parts[0] + [sep] + Join(parts[1..], sep)
  }

  /** Split loses nothing: joining the pieces with the separator restores s. */
  lemma {:induction false} JoinSplit(s: string, sep: char)
    ensures Join(Split(s, sep), sep) == s
    decreases |s|
  {
    var parts := Split(s, sep);
    if sep in s {
      var i := IndexOf(s, sep);
      var rest := Split(s[i + 1..], sep);
      assert parts == [s[..i]] + rest;
      assert parts[1..] == rest;
      JoinSplit(s[i + 1..], sep);
      assert Join(parts, sep) == s[..i] + [sep] + Join(rest, sep);
      assert s == s[..i] + [sep] + s[i + 1..];
    } else {
      assert parts == [s];
    }
  }

  lemma SplitCons(head: string, sep: char, rest: string)
    requires sep !in head
    ensures Split(head + [sep] + rest, sep) == [head] + Split(rest, sep)
  {
    var s := head + [sep] + rest;
    assert s[|head|] == sep;
    var i := IndexOf(s, sep);
    assert i == |head|;
    assert s[..i] == head;
    assert s[i + 1..] == rest;
  }

  /** Split undoes Join when no piece contains the separator. */
  lemma {:induction false} SplitJoin(parts: seq<string>, sep: char)
    requires |parts| >= 1
    requires forall k :: 0 <= k < |parts| ==> sep !in parts[k]
    ensures Split(Join(parts, sep), sep) == parts
  {
    if |parts| > 1 {
      var rest := Join(parts[1..], sep);
      assert Join(parts, sep) == parts[0] + [sep] + rest;
      SplitJoin(parts[1..], sep);
      SplitCons(parts[0], sep, rest);
      assert parts == [parts[0]] + parts[1..];
    } else {
      assert Join(parts, sep) == parts[0];
      assert Split(parts[0], sep) == [parts[0]];
    }
  }
}

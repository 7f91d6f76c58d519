/**
 * The k-anonymity lookup of client.go: readHashes, the status check of
 * getHashes and the matching loop of Check. The HTTP round trip is a
 * parameter `service` from request URL to reply; SHA-1 is a parameter too
 * (the digest of the password).
 */
module Client {
  import opened Wrappers
  import opened GoInt
  import Decimal
  import Lines
  import HashSplit

  /** One `SUFFIX:COUNT` record of a response (hashCount in client.go). */
  datatype HashCount = HashCount(suffix: string, count: int)

  /** The failures Check reports, each as its own kind. */
  datatype Error =
    | RequestFailed(reason: string)   // http.NewRequest or the transport failed
    | UnexpectedStatus(status: int)   // any status other than 200
    | NoHashes                        // "no hashes in response"

  /** What an HTTP round trip gives back. */
  datatype Reply = Failed(reason: string) | Reply(status: int, body: string)

  const StatusOK: int := 200

  /** One scanned line: kept iff strings.Split on ':' gives exactly two
      fields and the second is accepted by strconv.Atoi. */
  function ParseLine(line: string): (r: Option<HashCount>)
    ensures r.Some? ==> ':' !in r.value.suffix
  {
    var parts := Lines.Split(line, ':');
    if |parts| == 2 then
      match Decimal.Atoi(parts[1])
      case Some(count) => Some(HashCount(parts[0], count))
      case None => None
    else None
  }

  /** A line is kept exactly when it holds a single ':' and the text after it
      is a count Atoi accepts; the record is then the text before the ':' and
      that count. */
  lemma ParseLineMeaning(line: string)
    ensures ParseLine(line).Some? <==>
      multiset(line)[':'] == 1 && Decimal.Atoi(line[Lines.IndexOf(line, ':') + 1..]).Some?
    ensures ParseLine(line).Some? ==>
      var i := Lines.IndexOf(line, ':');
      ParseLine(line) == Some(HashCount(line[..i], Decimal.Atoi(line[i + 1..]).value))
  {
    Lines.SplitCount(line, ':');
    if multiset(line)[':'] == 1 {
      var i := Lines.IndexOf(line, ':');
      assert line == line[..i] + [':'] + line[i + 1..];
      Lines.SplitCons(line[..i], ':', line[i + 1..]);
      Lines.SplitCount(line[i + 1..], ':');
      assert multiset(line) == multiset(line[..i]) + multiset([':']) + multiset(line[i + 1..]);
    }
  }

  /** A record written as SUFFIX:COUNT parses back to itself. */
  lemma ParseLineFormatted(suffix: string, count: int64)
    requires ':' !in suffix
    ensures ParseLine(suffix + ":" + Decimal.FormatInt(count)) == Some(HashCount(suffix, count))
  {
    var text := Decimal.FormatInt(count);
    CountText(count);
    Lines.SplitCons(suffix, ':', text);
    Decimal.AtoiFormatInt(count);
  }

  /** The decimal text of a count holds neither separator. */
  lemma CountText(count: int)
    ensures ':' !in Decimal.FormatInt(count) && '\n' !in Decimal.FormatInt(count)
  {
  }

  /** The records readHashes collects from the scanned lines, in order. */
  function ParseRecords(lines: seq<string>): (records: seq<HashCount>)
    ensures |records| <= |lines|
  {
    if lines == [] then []
    else
      var init := ParseRecords(lines[..|lines| - 1]);
      match ParseLine(lines[|lines| - 1])
      case Some(h) => init + [h]
      case None => init
  }

  /** readHashes on the whole body: the records, or NoHashes when none survives. */
  function ParseBody(body: string): (r: Result<seq<HashCount>, Error>)
    ensures r.Ok? ==> |r.value| > 0
    ensures r.Err? ==> r.error == NoHashes
  {
    var records := ParseRecords(Lines.ScanLines(body));
    if |records| == 0 then Err(NoHashes) else Ok(records)
  }

  /** readHashes: scans the body line by line, keeps each line that parses
      and skips the others, then fails only if nothing was kept. */
  method ReadHashes(body: string) returns (r: Result<seq<HashCount>, Error>)
    ensures r == ParseBody(body)
  {
    var hashes: seq<HashCount> := [];
    var lines := Lines.ScanLines(body);
    var k := 0;
    while k < |lines|
      invariant 0 <= k <= |lines|
      invariant hashes == ParseRecords(lines[..k])
    {
      var line := lines[k];
      k := k + 1;
      assert lines[..k][..k - 1] == lines[..k - 1];
      var parts := Lines.Split(line, ':');
      if |parts| == 2 {
        var i := Decimal.Atoi(parts[1]);
        if i.None? {
          continue;
        }
        hashes := hashes + [HashCount(parts[0], i.value)];
      }
    }
    assert lines[..k] == lines;
    if |hashes| == 0 {
      return Err(NoHashes);
    }
    return Ok(hashes);
  }

  /** The values f gives for the elements of xs, in order, skipping None. */
  function Keep<T, U>(xs: seq<T>, f: T -> Option<U>): (ys: seq<U>)
    ensures |ys| <= |xs|
  {
    if xs == [] then []
    else
      var init := Keep(xs[..|xs| - 1], f);
      match f(xs[|xs| - 1])
      case Some(y) => init + [y]
      case None => init
  }

  /** Keep is a filter: its values are, in order, those of the elements f
      accepts, and every element f accepts contributes one. */
  lemma {:induction false} KeepFilter<T, U>(xs: seq<T>, f: T -> Option<U>) returns (kept: seq<nat>)
    ensures |kept| == |Keep(xs, f)|
    ensures forall j :: 0 <= j < |kept| ==> kept[j] < |xs| && f(xs[kept[j]]) == Some(Keep(xs, f)[j])
    ensures forall j, j' :: 0 <= j < j' < |kept| ==> kept[j] < kept[j']
    ensures forall i :: 0 <= i < |xs| && f(xs[i]).Some? ==> i in kept
  {
    if xs == [] {
      return [];
    }
    var n := |xs| - 1;
    var init := xs[..n];
    var ys := Keep(xs, f);
    var kept0 := KeepFilter(init, f);
    assert forall i :: 0 <= i < n ==> init[i] == xs[i];
    if f(xs[n]).Some? {
      assert ys == Keep(init, f) + [f(xs[n]).value];
      kept := kept0 + [n];
      forall j | 0 <= j < |kept|
        ensures kept[j] < |xs| && f(xs[kept[j]]) == Some(ys[j])
      {
        if j < |kept0| {
          assert kept[j] == kept0[j] && ys[j] == Keep(init, f)[j];
        }
      }
      forall i | 0 <= i < |xs| && f(xs[i]).Some?
        ensures i in kept
      {
        if i < n {
          assert i in kept0;
        } else {
          assert kept[|kept0|] == i;
        }
      }
    } else {
      assert ys == Keep(init, f);
      kept := kept0;
    }
  }

  lemma {:induction false} KeepEmpty<T, U>(xs: seq<T>, f: T -> Option<U>)
    ensures Keep(xs, f) == [] <==> forall i :: 0 <= i < |xs| ==> f(xs[i]).None?
  {
    if xs != [] {
      var n := |xs| - 1;
      KeepEmpty(xs[..n], f);
      assert forall i :: 0 <= i < n ==> xs[..n][i] == xs[i];
    }
  }

  lemma {:induction false} ParseRecordsKeep(lines: seq<string>)
    ensures ParseRecords(lines) == Keep(lines, ParseLine)
  {
    if lines != [] {
      ParseRecordsKeep(lines[..|lines| - 1]);
    }
  }

  /** readHashes keeps exactly the lines that parse, in their order: the
      j-th record is the parse of line kept[j], and no parsing line is
      skipped. */
  lemma ParseRecordsFilter(lines: seq<string>) returns (kept: seq<nat>)
    ensures |kept| == |ParseRecords(lines)|
    ensures forall j :: 0 <= j < |kept| ==> kept[j] < |lines| && ParseLine(lines[kept[j]]) == Some(ParseRecords(lines)[j])
    ensures forall j, j' :: 0 <= j < j' < |kept| ==> kept[j] < kept[j']
    ensures forall i :: 0 <= i < |lines| && ParseLine(lines[i]).Some? ==> i in kept
  {
    ParseRecordsKeep(lines);
    kept := KeepFilter(lines, ParseLine);
  }

  /** No line of the body is a record. */
  predicate NoLineParses(lines: seq<string>)
  {
    forall i :: 0 <= i < |lines| ==> ParseLine(lines[i]).None?
  }

  /** Nothing survives exactly when no line parses. */
  lemma ParseRecordsEmpty(lines: seq<string>)
    ensures ParseRecords(lines) == [] <==> NoLineParses(lines)
  {
    ParseRecordsKeep(lines);
    KeepEmpty(lines, ParseLine);
  }

  /** getHashes after the request is made: a failed round trip or any status
      other than 200 is an error and the body is not read; otherwise the body
      is parsed. */
  function FetchHashes(reply: Reply): (r: Result<seq<HashCount>, Error>)
    ensures reply.Failed? ==> r == Err(RequestFailed(reply.reason))
    ensures reply.Reply? && reply.status != StatusOK ==> r == Err(UnexpectedStatus(reply.status))
    ensures r.Ok? ==> reply.Reply? && reply.status == StatusOK && |r.value| > 0
  {
    match reply
    case Failed(reason) => Err(RequestFailed(reason))
    case Reply(status, body) =>
      if status != StatusOK then Err(UnexpectedStatus(status)) else ParseBody(body)
  }

  /** getHashes: one GET of base + prefix, sent to `service`. */
  method GetHashes(base: string, prefix: string, service: string -> Reply)
    returns (r: Result<seq<HashCount>, Error>)
    ensures r == FetchHashes(service(base + prefix))
  {
    var reply := service(base + prefix);
    if reply.Failed? {
      return Err(RequestFailed(reply.reason));
    }
    if reply.status != StatusOK {
      return Err(UnexpectedStatus(reply.status));
    }
    r := ReadHashes(reply.body);
  }

  /** The count of the first record with the given suffix, 0 if there is none. */
  function MatchedCount(hashes: seq<HashCount>, suffix: string): (r: int)
    ensures (exists i :: 0 <= i < |hashes| && hashes[i].suffix == suffix && hashes[i].count == r)
         || (r == 0 && forall i :: 0 <= i < |hashes| ==> hashes[i].suffix != suffix)
  {
    if hashes == [] then 0
    else if hashes[0].suffix == suffix then hashes[0].count
    else MatchedCount(hashes[1..], suffix)
  }

  lemma {:induction false} MatchedCountFirst(hashes: seq<HashCount>, suffix: string, i: nat)
    requires i < |hashes| && hashes[i].suffix == suffix
    requires forall j :: 0 <= j < i ==> hashes[j].suffix != suffix
    ensures MatchedCount(hashes, suffix) == hashes[i].count
  {
    if i > 0 {
      MatchedCountFirst(hashes[1..], suffix, i - 1);
    }
  }

  lemma {:induction false} MatchedCountNone(hashes: seq<HashCount>, suffix: string)
    requires forall j :: 0 <= j < |hashes| ==> hashes[j].suffix != suffix
    ensures MatchedCount(hashes, suffix) == 0
  {
    if hashes != [] {
      MatchedCountNone(hashes[1..], suffix);
    }
  }

  /** The matching loop of Check: the count of the first record whose suffix
      equals the local suffix, or 0 when no record does. */
  method FindCount(hashes: seq<HashCount>, suffix: string) returns (count: int)
    ensures count == MatchedCount(hashes, suffix)
  {
    for k := 0 to |hashes|
      invariant MatchedCount(hashes[k..], suffix) == MatchedCount(hashes, suffix)
    {
      assert hashes[k..][1..] == hashes[k + 1..];
      if hashes[k].suffix == suffix {
        return hashes[k].count;
      }
    }
    return 0;
  }

  /** Check, given the digest of the password and the service: -1 and an
      error when fetching or parsing fails, otherwise the count of the first
      record matching the suffix, 0 when none matches. */
  method Check(digest: seq<HashSplit.byte>, base: string, service: string -> Reply)
    returns (count: int, err: Option<Error>)
    requires |digest| == HashSplit.DigestLength
    ensures var split := HashSplit.HashPassword(digest);
      var fetched := FetchHashes(service(base + split.prefix));
      && (err.Some? <==> fetched.Err?)
      && (err.Some? ==> count == -1 && err.value == fetched.error)
      && (err.None? ==> count == MatchedCount(fetched.value, split.suffix))
  {
    var split := HashSplit.HashPassword(digest);
    var hashes := GetHashes(base, split.prefix, service);
    if hashes.Err? {
      return -1, Some(hashes.error);
    }
    count := FindCount(hashes.value, split.suffix);
    err := None;
  }

  /** A failed request or a status other than 200 gives the same error
      whatever the body holds: the body is never parsed. */
  lemma FetchIgnoresBodyOnError(status: int, body1: string, body2: string)
    requires status != StatusOK
    ensures FetchHashes(Reply(status, body1)) == FetchHashes(Reply(status, body2))
    ensures FetchHashes(Reply(status, body1)).Err?
  {
  }

  /** An answered request with status 200 fails exactly when no line of
      the body parses, and the error is then NoHashes. */
  lemma FetchNoHashesIffNoLineParses(body: string)
    ensures FetchHashes(Reply(StatusOK, body)).Err? <==> NoLineParses(Lines.ScanLines(body))
    ensures FetchHashes(Reply(StatusOK, body)).Err? ==> FetchHashes(Reply(StatusOK, body)).error == NoHashes
  {
    ParseRecordsEmpty(Lines.ScanLines(body));
  }

  // The response body the client's tests serve, and the records they expect.

  const PasswordSuffix: string := "1E4C9B93F3F0682250B6CF8331B7EE68FD8"
  const TestWordSuffix: string := "4D0591EEAAC5A33064731DBD53F6A819DCE"
  const UnicodeSuffix: string := "6101ED511A094D1E4E515BBF8D32B266090"
  const EmptySuffix: string := "3EE5E6B4B0D3255BFEF95601890AFD80709"

  const PasswordLine: string := PasswordSuffix + ":" + "3303003"
  const TestWordLine: string := TestWordSuffix + ":" + "0"
  const UnicodeLine: string := UnicodeSuffix + ":" + "42"

  const TestBody: string := PasswordLine + "\n" + TestWordLine + "\n" + UnicodeLine + "\n"

  const TestRecords: seq<HashCount> :=
    [HashCount(PasswordSuffix, 3303003), HashCount(TestWordSuffix, 0), HashCount(UnicodeSuffix, 42)]

  lemma TestSuffixes()
    ensures ':' !in PasswordSuffix && ':' !in TestWordSuffix && ':' !in UnicodeSuffix
    ensures '\n' !in PasswordSuffix && '\n' !in TestWordSuffix && '\n' !in UnicodeSuffix
    ensures PasswordSuffix != EmptySuffix && TestWordSuffix != EmptySuffix && UnicodeSuffix != EmptySuffix
  {
    assert PasswordSuffix[0] != EmptySuffix[0];
    assert TestWordSuffix[0] != EmptySuffix[0];
    assert UnicodeSuffix[0] != EmptySuffix[0];
  }

  lemma FormatTestCounts()
    ensures Decimal.FormatInt(3303003) == "3303003"
    ensures Decimal.FormatInt(0) == "0"
    ensures Decimal.FormatInt(42) == "42"
  {
    assert Decimal.Digits(3) == "3";
    assert Decimal.Digits(33) == "33";
    assert Decimal.Digits(330) == "330";
    assert Decimal.Digits(3303) == "3303";
    assert Decimal.Digits(33030) == "33030";
    assert Decimal.Digits(330300) == "330300";
  }

  /** A test-body line: the suffix, a ':' and the count in decimal. */
  lemma TestLineParses(line: string, suffix: string, count: int64, text: string)
    requires ':' !in suffix && '\n' !in suffix && Decimal.FormatInt(count) == text
    requires line == suffix + ":" + text
    ensures '\n' !in line && Lines.DropCR(line) == line
    ensures ParseLine(line) == Some(HashCount(suffix, count))
  {
    ParseLineFormatted(suffix, count);
    CountText(count);
    assert line[|line| - 1] == text[|text| - 1] != '\r' by {
      Decimal.AtoiFormatInt(count);
    }
  }

  lemma TerminatedThree(l1: string, l2: string, l3: string)
    ensures Lines.Terminated([l1, l2, l3]) == l1 + "\n" + l2 + "\n" + l3 + "\n"
  {
    assert [l1, l2, l3][1..] == [l2, l3] && [l2, l3][1..] == [l3];
    assert Lines.Terminated([l3]) == l3 + "\n";
  }

  lemma TestBodyLines(l1: string, l2: string, l3: string)
    requires '\n' !in l1 && '\n' !in l2 && '\n' !in l3
    requires Lines.DropCR(l1) == l1 && Lines.DropCR(l2) == l2 && Lines.DropCR(l3) == l3
    ensures Lines.ScanLines(l1 + "\n" + l2 + "\n" + l3 + "\n") == [l1, l2, l3]
  {
    TerminatedThree(l1, l2, l3);
    Lines.ScanTerminated([l1, l2, l3]);
  }

  lemma {:induction false} ParseRecordsThree(l1: string, l2: string, l3: string)
    requires ParseLine(l1).Some? && ParseLine(l2).Some? && ParseLine(l3).Some?
    ensures ParseRecords([l1, l2, l3]) == [ParseLine(l1).value, ParseLine(l2).value, ParseLine(l3).value]
  {
    assert [l1, l2, l3][..2] == [l1, l2] && [l1, l2][..1] == [l1] && [l1][..0] == [];
    assert ParseRecords([l1]) == [ParseLine(l1).value];
    assert ParseRecords([l1, l2]) == [ParseLine(l1).value, ParseLine(l2).value];
  }

  lemma ThreeRecords(l1: string, l2: string, l3: string, h1: HashCount, h2: HashCount, h3: HashCount)
    requires '\n' !in l1 && '\n' !in l2 && '\n' !in l3
    requires Lines.DropCR(l1) == l1 && Lines.DropCR(l2) == l2 && Lines.DropCR(l3) == l3
    requires ParseLine(l1) == Some(h1) && ParseLine(l2) == Some(h2) && ParseLine(l3) == Some(h3)
    ensures ParseBody(l1 + "\n" + l2 + "\n" + l3 + "\n") == Ok([h1, h2, h3])
  {
    TestBodyLines(l1, l2, l3);
    ParseRecordsThree(l1, l2, l3);
  }

  /** readHashes on the test body yields the three expected records, in order. */
  lemma TestBodyRecords()
    ensures ParseBody(TestBody) == Ok(TestRecords)
  {
    TestSuffixes();
    FormatTestCounts();
    TestLineParses(PasswordLine, PasswordSuffix, 3303003, "3303003");
    TestLineParses(TestWordLine, TestWordSuffix, 0, "0");
    TestLineParses(UnicodeLine, UnicodeSuffix, 42, "42");
    ThreeRecords(PasswordLine, TestWordLine, UnicodeLine, TestRecords[0], TestRecords[1], TestRecords[2]);
  }

  /** Check against a service serving the test body: 3303003 for the suffix of
      "password", 0 for the suffix of the empty password. */
  lemma TestBodyMatches()
    ensures FetchHashes(Reply(StatusOK, TestBody)) == Ok(TestRecords)
    ensures MatchedCount(TestRecords, PasswordSuffix) == 3303003
    ensures MatchedCount(TestRecords, EmptySuffix) == 0
  {
    TestBodyRecords();
    TestSuffixes();
    MatchedCountNone(TestRecords, EmptySuffix);
  }
}

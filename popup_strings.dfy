/** The popup's pure string helpers: URL elision, POSIX single-quote
    escaping and the curl command built with it, and the sort key that
    reverses a domain's labels. */
module PopupStrings {
  import opened Sequences
  import opened Text
  import opened FailureRecords

  /** URLs longer than this are shown elided. */
  const MAX_URL_LENGTH: nat := 80

  /** The one-character ellipsis "…" (U+2026). */
  const ELLIPSIS: string := "\U{2026}"

  /** The suffix as the source file spells it: the three code points
      U+00E2 U+20AC U+00A6 that the UTF-8 bytes of "…" become when read as
      Windows-1252. */
  const ELLIPSIS_AS_WRITTEN: string := "\U{00E2}\U{20AC}\U{00A6}"

  /** `elideUrl` with a given suffix: an empty URL gives the empty string,
      one of at most `MAX_URL_LENGTH` characters is kept whole, a longer
      one keeps its first `MAX_URL_LENGTH - 1` characters followed by the
      suffix. */
  function ElideWith(url: string, suffix: string): (r: string)
    ensures url == "" ==> r == ""
    ensures |url| <= MAX_URL_LENGTH ==> r == url
    ensures |url| > MAX_URL_LENGTH ==>
      |r| == MAX_URL_LENGTH - 1 + |suffix| && r[..MAX_URL_LENGTH - 1] == url[..MAX_URL_LENGTH - 1]
      && r[MAX_URL_LENGTH - 1..] == suffix
  {
    if url == "" then ""
    else if |url| <= MAX_URL_LENGTH then url
    else url[..MAX_URL_LENGTH - 1] + suffix
  }

  /** `elideUrl` as the file spells it: an elided URL keeps its first
      `MAX_URL_LENGTH - 1` characters and gains the three-character suffix. */
  function ElideUrlAsWritten(url: string): (r: string)
    ensures url == "" ==> r == ""
    ensures |url| <= MAX_URL_LENGTH ==> r == url
    ensures |url| > MAX_URL_LENGTH ==>
      |r| == MAX_URL_LENGTH + 2 && r[..MAX_URL_LENGTH - 1] == url[..MAX_URL_LENGTH - 1]
      && r[MAX_URL_LENGTH - 1..] == ELLIPSIS_AS_WRITTEN
  {
    ElideWith(url, ELLIPSIS_AS_WRITTEN)
  }

  /** With the three-code-point suffix an elided URL is 82 characters long,
      over the limit that elision is meant to enforce, and it ends in the
      three characters "â€¦" rather than "…". */
  lemma AsWrittenElisionOverflows(url: string)
    requires |url| > MAX_URL_LENGTH
    ensures |ElideUrlAsWritten(url)| == MAX_URL_LENGTH + 2
    ensures ElideUrlAsWritten(url)[MAX_URL_LENGTH - 1..] != ELLIPSIS
  {
    assert |ELLIPSIS_AS_WRITTEN| == 3;
  }

  /** `elideUrl` with the one-character ellipsis: the result never exceeds
      `MAX_URL_LENGTH` and always starts with a prefix of the URL. */
  function ElideUrl(url: string): (r: string)
    ensures |r| <= MAX_URL_LENGTH
    ensures url == "" ==> r == ""
    ensures |url| <= MAX_URL_LENGTH ==> r == url
    ensures |url| > MAX_URL_LENGTH ==>
      |r| == MAX_URL_LENGTH && r[..MAX_URL_LENGTH - 1] == url[..MAX_URL_LENGTH - 1]
      && r[MAX_URL_LENGTH - 1..] == ELLIPSIS
  {
    ElideWith(url, ELLIPSIS)
  }

  /** Eliding an elided URL changes nothing. */
  lemma ElideUrlIdempotent(url: string)
    ensures ElideUrl(ElideUrl(url)) == ElideUrl(url)
  {
  }

  /** `s.replace(/'/g, "'\\''")`: every single quote becomes the four
      characters quote, backslash, quote, quote. */
  function QuoteBody(s: string): (r: string)
    ensures |r| == |s| + 3 * Occurrences(s, '\'')
    decreases |s|
  {
    if s == [] then ""
    else (if s[0] == '\'' then "'\\''" else [s[0]]) + QuoteBody(s[1..])
  }

  /** `escapeShell`: the empty string becomes `''`; anything else is wrapped
      in single quotes with its own quotes escaped. The length grows by two
      plus three per quote. */
  function EscapeShell(s: string): (r: string)
    ensures |r| == |s| + 2 + 3 * Occurrences(s, '\'')
    ensures |r| >= 2 && r[0] == '\'' && r[|r| - 1] == '\''
  {
    if s == "" then "''" else "'" + QuoteBody(s) + "'"
  }

  /** Characters a POSIX shell reads as themselves outside quotes: not a
      blank or newline, not an operator character, and not one that starts
      an expansion (section 2.2 and 2.6 of the Shell Command Language). */
  predicate IsPlainWordChar(c: char)
  {
    c !in " \t\n|&;<>()$`\\\"'*?[#~"
  }

  /** `c` in front of an optional string. */
  function Prepend(c: char, o: Option<string>): Option<string>
  {
    if o.Some? then Some([c] + o.value) else None
  }

  /** `s` in front of an optional string. */
  function PrependAll(s: string, o: Option<string>): Option<string>
  {
    if o.Some? then Some(s + o.value) else None
  }

  /** The single word a POSIX shell reads from `t` (IEEE Std 1003.1, Shell
      Command Language, section 2.2): inside single quotes every character
      but `'` stands for itself; outside, `'` opens a quote, a backslash
      keeps the next character literally (a backslash-newline pair is
      removed), and plain word characters stand for themselves. `None`
      when `t` is not one such word: an unterminated quote, a trailing
      backslash, or a character that would split or expand the word. */
  function ReadWord(t: string, quoted: bool): Option<string>
    decreases |t|
  {
    if t == [] then (if quoted then None else Some(""))
    else if quoted then
      (if t[0] == '\'' then ReadWord(t[1..], false) else Prepend(t[0], ReadWord(t[1..], true)))
    else if t[0] == '\'' then ReadWord(t[1..], true)
    else if t[0] == '\\' then
      (if |t| == 1 then None
       else if t[1] == '\n' then ReadWord(t[2..], false)
       else Prepend(t[1], ReadWord(t[2..], false)))
    else if IsPlainWordChar(t[0]) then Prepend(t[0], ReadWord(t[1..], false))
    else None
  }

  /** Putting the first character in front of the rest is putting all of it. */
  lemma PrependFirst(s: string, o: Option<string>)
    requires s != []
    ensures Prepend(s[0], PrependAll(s[1..], o)) == PrependAll(s, o)
  {
    if o.Some? {
      assert [s[0]] + (s[1..] + o.value) == s + o.value;
    }
  }

  /** Inside an open quote, the escape sequence for one quote reads as
      that quote. */
  lemma ReadEscapedQuote(tail: string)
    ensures ReadWord("'\\''" + tail, true) == Prepend('\'', ReadWord(tail, true))
  {
    var t := "'\\''" + tail;
    var u := t[1..];
    assert u == "\\''" + tail;
    var v := u[2..];
    assert v == "'" + tail;
    assert v[1..] == tail;
    assert ReadWord(v, false) == ReadWord(tail, true);
    assert ReadWord(u, false) == Prepend('\'', ReadWord(v, false));
  }

  /** Inside an open quote, any other character reads as itself. */
  lemma ReadQuotedChar(c: char, tail: string)
    requires c != '\''
    ensures ReadWord([c] + tail, true) == Prepend(c, ReadWord(tail, true))
  {
    assert ([c] + tail)[1..] == tail;
  }

  /** Inside an open quote the escaped body reads back as the original. */
  lemma {:induction false} ReadQuotedBody(s: string, rest: string)
    ensures ReadWord(QuoteBody(s) + rest, true) == PrependAll(s, ReadWord(rest, true))
    decreases |s|
  {
    if s == [] {
      assert QuoteBody(s) + rest == rest;
      var after := ReadWord(rest, true);
      assert after.Some? ==> s + after.value == after.value;
    } else {
      var tail := QuoteBody(s[1..]) + rest;
      var after := ReadWord(rest, true);
      ReadQuotedBody(s[1..], rest);
      if s[0] == '\'' {
        assert QuoteBody(s) + rest == "'\\''" + tail;
        ReadEscapedQuote(tail);
      } else {
        assert QuoteBody(s) + rest == [s[0]] + tail;
        ReadQuotedChar(s[0], tail);
      }
      PrependFirst(s, after);
    }
  }

  /** Reading the escaped string back under POSIX quoting rules restores
      the original: the shell sees exactly `s`, as one word. */
  lemma EscapeShellRoundTrip(s: string)
    ensures ReadWord(EscapeShell(s), false) == Some(s)
  {
    if s == "" {
      assert "''"[1..] == "'";
      assert "'"[1..] == "";
    } else {
      var body := QuoteBody(s) + "'";
      assert EscapeShell(s) == "'" + body;
      assert ("'" + body)[1..] == body;
      ReadQuotedBody(s, "'");
      assert "'"[1..] == "";
      assert s + "" == s;
    }
  }

  /** `record.method || 'GET'`. */
  function CurlMethod(r: FailureRecord): (m: string)
    ensures m != ""
    ensures r.requestMethod != "" ==> m == r.requestMethod
    ensures r.requestMethod == "" ==> m == "GET"
  {
    if r.requestMethod == "" then "GET" else r.requestMethod
  }

  /** `createCurl`: "curl -X ", the method, a space, and the escaped URL,
      whose reading by the shell is exactly the record's URL. */
  function CreateCurl(r: FailureRecord): (cmd: string)
    ensures |cmd| == 9 + |CurlMethod(r)| + |EscapeShell(r.url)|
    ensures cmd[..8] == "curl -X "
    ensures cmd[8..8 + |CurlMethod(r)|] == CurlMethod(r) && cmd[8 + |CurlMethod(r)|] == ' '
    ensures ReadWord(cmd[9 + |CurlMethod(r)|..], false) == Some(r.url)
  {
    var m := CurlMethod(r);
    var cmd := "curl -X " + m + " " + EscapeShell(r.url);
    assert cmd[9 + |m|..] == EscapeShell(r.url);
    EscapeShellRoundTrip(r.url);
    cmd
  }

  /** `getDomainSortKey`: the labels of the lower-cased domain, in reverse
      order, joined by dots; splitting the key at its dots gives back
      exactly those reversed labels. */
  function DomainSortKey(domain: string): (key: string)
    ensures Split(key, '.') == Reverse(Split(Lower(domain), '.'))
  {
    var parts := Reverse(Split(Lower(domain), '.'));
    SplitJoin(parts, '.');
    Join(parts, '.')
  }

  /** Reversing lower-case labels leaves them lower-case. */
  lemma ReverseLower(labels: seq<string>)
    requires forall i :: 0 <= i < |labels| ==> IsLower(labels[i])
    ensures forall i :: 0 <= i < |labels| ==> IsLower(Reverse(labels)[i])
  {
    forall i | 0 <= i < |labels| ensures IsLower(Reverse(labels)[i]) {
      assert Reverse(labels)[i] == labels[|labels| - 1 - i];
    }
  }

  /** Taking the key of the key gives back the lower-cased domain. */
  lemma SortKeyTwice(domain: string)
    ensures DomainSortKey(DomainSortKey(domain)) == Lower(domain)
  {
    var low := Lower(domain);
    var labels := Split(low, '.');
    var parts := Reverse(labels);
    var key := DomainSortKey(domain);
    assert key == Join(parts, '.');
    LowerFacts(domain);
    SplitLower(low, '.');
    ReverseLower(labels);
    JoinLower(parts, '.');
    LowerFacts(key);
    assert Lower(key) == key;
    assert Split(key, '.') == parts;
    ReverseReverse(labels);
    JoinSplit(low, '.');
    assert DomainSortKey(key) == Join(Reverse(parts), '.');
  }

  /** The key has the domain's length and the same number of dots. */
  lemma SortKeyShape(domain: string)
    ensures |DomainSortKey(domain)| == |domain|
    ensures Occurrences(DomainSortKey(domain), '.') == Occurrences(domain, '.')
  {
    var low := Lower(domain);
    var labels := Split(low, '.');
    var parts := Reverse(labels);
    JoinLength(parts, '.');
    TotalLengthReverse(labels);
    JoinSplit(low, '.');
    JoinLength(labels, '.');
    JoinOccurrences(parts, '.');
    LowerOccurrences(domain, '.');
  }
}

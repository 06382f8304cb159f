/**
 * The email worker's pure steps: reading the headers of an incoming
 * message into a `ParsedEmail`, classifying where it came from, cutting
 * out its body, and rendering the markdown note and the storage key
 * under which the note is kept.
 */
module Worker {
  import opened Wrappers
  import opened JsString
  import opened JsDate

  // ---------------------------------------------------------------------
  // Entities

  datatype Source = Gmail | Outlook | ICloud | Unknown

  /** The tag written into the note for each source. */
  function SourceName(s: Source): string
  {
    match s
    case Gmail => "gmail"
    case Outlook => "outlook"
    case ICloud => "icloud"
    case Unknown => "unknown"
  }

  datatype Sender = Sender(name: string, email: string)

  datatype ParsedEmail = ParsedEmail(
    messageId: string,
    from: Sender,
    subject: string,
    date: Date,
    body: string,
    source: Source)

  /** Header values by lower-case header name, as `Headers.get` returns them (repeats already joined). */
  type Headers = map<string, string>

  /** `headers.get(name)`: `None` stands for `null`. */
  function Get(headers: Headers, name: string): Option<string>
  {
    if name in headers then Some(headers[name]) else None
  }

  /** A header value is truthy in JavaScript when it is present and not empty. */
  predicate Truthy(v: Option<string>)
  {
    v.Some? && v.value != ""
  }

  /** `v || fallback` for a possibly missing string. */
  function Or(v: Option<string>, fallback: string): string
  {
    if Truthy(v) then v.value else fallback
  }

  // ---------------------------------------------------------------------
  // Source detection

  const GmailHeader: string := "x-gm-message-state"
  const OutlookHeader: string := "x-ms-exchange-organization-authas"
  const ReceivedHeader: string := "received"

  /** The relay path the classifier searches: the Received header, or "" when missing. */
  function RelayPath(headers: Headers): string
  {
    Or(Get(headers, ReceivedHeader), "")
  }

  /**
   * Classifies the message by a fixed priority: a non-empty Gmail header
   * wins over everything, then a non-empty Exchange header, then an Apple
   * domain anywhere in the relay path.
   */
  function DetectEmailSource(headers: Headers): (r: Source)
    ensures r == Gmail <==> Truthy(Get(headers, GmailHeader))
    ensures r == Outlook <==> !Truthy(Get(headers, GmailHeader)) && Truthy(Get(headers, OutlookHeader))
    ensures r == ICloud <==>
      !Truthy(Get(headers, GmailHeader)) && !Truthy(Get(headers, OutlookHeader)) &&
      exists k: nat :: OccursAt(RelayPath(headers), "apple.com", k) || OccursAt(RelayPath(headers), "icloud.com", k)
  {
    var received := RelayPath(headers);
    if Truthy(Get(headers, GmailHeader)) then Gmail
    else if Truthy(Get(headers, OutlookHeader)) then Outlook
    else if Includes(received, "apple.com") || Includes(received, "icloud.com") then ICloud
    else Unknown
  }

  /** Only the three signature headers matter to the classification. */
  lemma SourceIgnoresOtherHeaders(h1: Headers, h2: Headers)
    requires Get(h1, GmailHeader) == Get(h2, GmailHeader)
    requires Get(h1, OutlookHeader) == Get(h2, OutlookHeader)
    requires Get(h1, ReceivedHeader) == Get(h2, ReceivedHeader)
    ensures DetectEmailSource(h1) == DetectEmailSource(h2)
  {
  }

  // ---------------------------------------------------------------------
  // Message id

  /** The characters a message id keeps: `[A-Za-z0-9@._-]`. */
  predicate IsIdChar(c: char)
  {
    ('a' <= c <= 'z') || ('A' <= c <= 'Z') || ('0' <= c <= '9') || c == '@' || c == '.' || c == '_' || c == '-'
  }

  predicate IsAngleBracket(c: char)
  {
    c == '<' || c == '>'
  }

  /** `s.replace(/[<>]/g, '')`. */
  function RemoveAngleBrackets(s: string): (r: string)
    ensures forall i :: 0 <= i < |r| ==> !IsAngleBracket(r[i])
  {
    if s == [] then []
    else (if IsAngleBracket(s[0]) then [] else [s[0]]) + RemoveAngleBrackets(s[1..])
  }

  /** Removing the brackets shortens the id by exactly the number of brackets in it. */
  lemma {:induction false} RemoveAngleBracketsLength(s: string)
    ensures |RemoveAngleBrackets(s)| == |s| - multiset(s)['<'] - multiset(s)['>']
  {
    if s != [] {
      RemoveAngleBracketsLength(s[1..]);
      assert s == [s[0]] + s[1..];
    }
  }

  /**
   * `s.replace(/[^a-zA-Z0-9@._-]/g, '_')`: the result holds only
   * whitelist characters, and an id that already does is left alone.
   */
  function ReplaceNonIdChars(s: string): (r: string)
    ensures |r| == |s|
    ensures forall i :: 0 <= i < |r| ==> IsIdChar(r[i])
    ensures (forall i :: 0 <= i < |s| ==> IsIdChar(s[i])) ==> r == s
    ensures forall i :: 0 <= i < |s| ==> r[i] == (if IsIdChar(s[i]) then s[i] else '_')
  {
    seq(|s|, i requires 0 <= i < |s| => if IsIdChar(s[i]) then s[i] else '_')
  }

  /**
   * Makes a message id safe to store: angle brackets disappear, every
   * other character outside `[A-Za-z0-9@._-]` becomes `_`.
   */
  function SanitizeMessageId(id: string): (r: string)
    ensures forall i :: 0 <= i < |r| ==> IsIdChar(r[i])
    ensures |r| == |id| - multiset(id)['<'] - multiset(id)['>']
  {
    RemoveAngleBracketsLength(id);
    ReplaceNonIdChars(RemoveAngleBrackets(id))
  }

  lemma {:induction false} RemoveAngleBracketsAppend(a: string, b: string)
    ensures RemoveAngleBrackets(a + b) == RemoveAngleBrackets(a) + RemoveAngleBrackets(b)
    decreases |a|
  {
    if a == [] {
      assert a + b == b;
    } else {
      RemoveAngleBracketsAppend(a[1..], b);
      assert (a + b)[0] == a[0];
      assert (a + b)[1..] == a[1..] + b;
    }
  }

  /** Sanitizing works character by character: the id of a concatenation is the concatenation of the ids. */
  lemma SanitizeAppend(a: string, b: string)
    ensures SanitizeMessageId(a + b) == SanitizeMessageId(a) + SanitizeMessageId(b)
  {
    RemoveAngleBracketsAppend(a, b);
  }

  /** What sanitizing does to one character. */
  lemma SanitizeChar(c: char)
    ensures SanitizeMessageId([c]) == if IsAngleBracket(c) then [] else if IsIdChar(c) then [c] else ['_']
  {
    assert RemoveAngleBrackets([c]) == (if IsAngleBracket(c) then [] else [c]) + RemoveAngleBrackets([]);
  }

  /** An id made only of allowed characters is left as it is. */
  lemma {:induction false} SanitizeKeepsSafeIds(s: string)
    requires forall i :: 0 <= i < |s| ==> IsIdChar(s[i])
    ensures SanitizeMessageId(s) == s
  {
    RemoveAngleBracketsOfSafe(s);
  }

  lemma {:induction false} RemoveAngleBracketsOfSafe(s: string)
    requires forall i :: 0 <= i < |s| ==> IsIdChar(s[i])
    ensures RemoveAngleBrackets(s) == s
    decreases |s|
  {
    if s != [] {
      RemoveAngleBracketsOfSafe(s[1..]);
    }
  }

  /** Sanitizing twice is sanitizing once. */
  lemma SanitizeIdempotent(id: string)
    ensures SanitizeMessageId(SanitizeMessageId(id)) == SanitizeMessageId(id)
  {
    SanitizeKeepsSafeIds(SanitizeMessageId(id));
  }

  // ---------------------------------------------------------------------
  // YAML escaping of the subject

  /** The characters `: # { } [ ] , & * ? | < > = ! % @` and the backquote. */
  predicate IsYamlIndicator(c: char)
  {
    c == ':' || c == '#' || c == '{' || c == '}' || c == '[' || c == ']' || c == ',' || c == '&' ||
    c == '*' || c == '?' || c == '|' || c == '<' || c == '>' || c == '=' || c == '!' || c == '%' ||
    c == '@' || c == '`'
  }

  /** A value is written quoted when it holds an indicator character or a newline. */
  predicate NeedsQuoting(s: string)
  {
    exists i :: 0 <= i < |s| && (IsYamlIndicator(s[i]) || s[i] == '\n')
  }

  /** `s.replace(/"/g, '\\"')`: a backslash goes in front of every double quote. */
  function EscapeQuotes(s: string): (r: string)
    ensures |r| == |s| + multiset(s)['"']
    ensures r != [] ==> r[0] != '"'
  {
    if s == [] then []
    else
      assert multiset(s)['"'] == multiset([s[0]])['"'] + multiset(s[1..])['"'] by {
        assert s == [s[0]] + s[1..];
      }
      (if s[0] == '"' then ['\\', '"'] else [s[0]]) + EscapeQuotes(s[1..])
  }

  /**
   * Escaping adds one backslash per double quote and changes nothing
   * else: backslashes already in `s` are not doubled.
   */
  lemma EscapeQuotesCounts(s: string)
    ensures multiset(EscapeQuotes(s))['\\'] == multiset(s)['\\'] + multiset(s)['"']
    ensures forall c :: c != '\\' ==> multiset(EscapeQuotes(s))[c] == multiset(s)[c]
    ensures |EscapeQuotes(s)| == |s| + multiset(s)['"']
  {
    forall c | c != '\\'
      ensures multiset(EscapeQuotes(s))[c] == multiset(s)[c]
    {
      EscapeQuotesCount(s, c);
    }
    EscapeQuotesCount(s, '\\');
  }

  /** How often one character occurs in the escaped text. */
  lemma {:induction false} EscapeQuotesCount(s: string, c: char)
    ensures multiset(EscapeQuotes(s))[c] == multiset(s)[c] + (if c == '\\' then multiset(s)['"'] else 0)
  {
    if s != [] {
      EscapeQuotesCount(s[1..], c);
      assert s == [s[0]] + s[1..];
      EscapeQuotesCountStep(s[0], s[1..], c);
    }
  }

  lemma EscapeQuotesCountStep(h: char, t: string, c: char)
    requires multiset(EscapeQuotes(t))[c] == multiset(t)[c] + (if c == '\\' then multiset(t)['"'] else 0)
    ensures multiset(EscapeQuotes([h] + t))[c] == multiset([h] + t)[c] + (if c == '\\' then multiset([h] + t)['"'] else 0)
  {
    var e: string := if h == '"' then ['\\', '"'] else [h];
    assert ([h] + t)[1..] == t;
    assert EscapeQuotes([h] + t) == e + EscapeQuotes(t);
  }

  /** Every double quote in `r` has a backslash right before it. */
  predicate QuotesEscaped(r: string)
  {
    forall i :: 0 <= i < |r| && r[i] == '"' ==> 0 < i && r[i - 1] == '\\'
  }

  /** Every double quote in the escaped text has a backslash right before it. */
  lemma {:induction false} EscapeQuotesEscapesEveryQuote(s: string)
    ensures QuotesEscaped(EscapeQuotes(s))
  {
    if s != [] {
      EscapeQuotesEscapesEveryQuote(s[1..]);
      var tail := EscapeQuotes(s[1..]);
      var head: string := if s[0] == '"' then ['\\', '"'] else [s[0]];
      assert EscapeQuotes(s) == head + tail;
      forall i | |head| < i < |head| + |tail| && (head + tail)[i] == '"'
        ensures (head + tail)[i - 1] == '\\'
      {
        var j := i - |head|;
        assert tail[j] == '"';
        assert QuotesEscaped(tail);
        assert tail[j - 1] == '\\';
      }
    }
  }

  /** The reading of a double-quoted value that undoes `EscapeQuotes`: `\"` stands for `"`. */
  function UnescapeQuotes(s: string): string
  {
    if s == [] then []
    else if |s| >= 2 && s[0] == '\\' && s[1] == '"' then ['"'] + UnescapeQuotes(s[2..])
    else [s[0]] + UnescapeQuotes(s[1..])
  }

  lemma {:induction false} UnescapeEscape(s: string)
    ensures UnescapeQuotes(EscapeQuotes(s)) == s
  {
    if s != [] {
      UnescapeEscape(s[1..]);
      var tail := EscapeQuotes(s[1..]);
      if s[0] == '"' {
        assert EscapeQuotes(s) == ['\\', '"'] + tail;
        assert (['\\', '"'] + tail)[2..] == tail;
      } else {
        assert EscapeQuotes(s) == [s[0]] + tail;
        assert ([s[0]] + tail)[1..] == tail;
      }
    }
  }

  /** `escapeYaml`: the subject as a YAML scalar, double-quoted only when it needs to be. */
  function EscapeYaml(s: string): (r: string)
    ensures !NeedsQuoting(s) ==> r == s
    ensures NeedsQuoting(s) ==> |r| >= 2 && r[0] == '"' && r[|r| - 1] == '"'
    ensures NeedsQuoting(s) ==> |r| == |s| + 2 + multiset(s)['"']
    ensures '\n' in r <==> '\n' in s
  {
    if NeedsQuoting(s) then
      var inner := EscapeQuotes(s);
      EscapeQuotesCounts(s);
      assert ('\n' in inner <==> '\n' in s) by {
        assert multiset(inner)['\n'] == multiset(s)['\n'];
      }
      "\"" + inner + "\""
    else s
  }

  /** Reads back a value written by `EscapeYaml`: strips surrounding quotes and undoes `\"`. */
  function UnquoteYaml(v: string): string
  {
    if |v| >= 2 && v[0] == '"' && v[|v| - 1] == '"' then UnescapeQuotes(v[1..|v| - 1]) else v
  }

  /**
   * Escaping and reading back returns the subject, except for a subject
   * that is left unquoted although it already starts and ends with `"`.
   */
  lemma EscapeYamlRoundTrip(s: string)
    requires NeedsQuoting(s) || !(|s| >= 2 && s[0] == '"' && s[|s| - 1] == '"')
    ensures UnquoteYaml(EscapeYaml(s)) == s
  {
    if NeedsQuoting(s) {
      var inner := EscapeQuotes(s);
      UnescapeEscape(s);
      assert ("\"" + inner + "\"")[1..|inner| + 1] == inner;
    }
  }

  // ---------------------------------------------------------------------
  // Storage key

  /** `formatDate`: the part of `toISOString()` before the first `T`. */
  function FormatDate(d: Date): (r: Option<string>)
    ensures r.None? <==> d.InvalidDate?
  {
    match ToISOString(d)
    case None => None
    case Some(iso) => Some(Split(iso, "T")[0])
  }

  /** `formatDate` gives the calendar day of a valid date and throws on an invalid one. */
  lemma FormatDateIsDay(d: Date)
    ensures d.InvalidDate? ==> FormatDate(d).None?
    ensures d.Utc? ==> FormatDate(d) == Some(DayString(d))
  {
    if d.Utc? {
      DayStringChars(d);
      assert 'T' !in DayString(d);
      SplitAfter(DayString(d), 'T', TimeString(d));
      assert DayString(d) + "T" + TimeString(d) == DayString(d) + ['T'] + TimeString(d);
    }
  }

  /** The characters a file name may not contain: `/ \ ? % * : | " < >`. */
  predicate IsForbiddenInFilename(c: char)
  {
    c == '/' || c == '\\' || c == '?' || c == '%' || c == '*' || c == ':' || c == '|' || c == '"' ||
    c == '<' || c == '>'
  }

  /**
   * `s.replace(/[/\\?%*:|"<>]/g, '-')`: the result holds no character
   * forbidden in a file name, and a text that holds none is left alone.
   */
  function ReplaceForbidden(s: string): (r: string)
    ensures |r| == |s|
    ensures AllowedInFilename(r)
    ensures AllowedInFilename(s) ==> r == s
    ensures forall i :: 0 <= i < |s| ==> r[i] == (if IsForbiddenInFilename(s[i]) then '-' else s[i])
  {
    seq(|s|, i requires 0 <= i < |s| => if IsForbiddenInFilename(s[i]) then '-' else s[i])
  }

  /** The subject with forbidden characters replaced, white space runs collapsed, and trimmed. */
  function NormalizedSubject(subject: string): (r: string)
    ensures |r| <= |subject|
  {
    Trim(CollapseWhiteSpace(ReplaceForbidden(subject)))
  }

  /** No character of `s` is forbidden in a file name. */
  predicate AllowedInFilename(s: string)
  {
    forall i :: 0 <= i < |s| ==> !IsForbiddenInFilename(s[i])
  }

  lemma {:induction false} CollapseKeepsAllowed(s: string, inRun: bool)
    requires AllowedInFilename(s)
    ensures AllowedInFilename(CollapseRest(s, inRun))
    decreases |s|
  {
    if s != [] {
      var c, rest := s[0], s[1..];
      assert AllowedInFilename(rest) by {
        assert forall i :: 0 <= i < |rest| ==> rest[i] == s[i + 1];
      }
      CollapseKeepsAllowed(rest, IsWhiteSpace(c));
      assert s == [c] + rest;
      CollapseRestCons(c, rest, inRun);
    }
  }

  lemma TrimKeepsAllowed(s: string)
    requires AllowedInFilename(s)
    ensures AllowedInFilename(Trim(s))
  {
    var t := Trim(s);
    var lo := |s| - |TrimStart(s)|;
    assert forall i :: 0 <= i < |t| ==> t[i] == s[lo + i];
  }

  /** No character of the normalized subject is forbidden in a file name. */
  lemma NormalizedSubjectAllowed(subject: string)
    ensures AllowedInFilename(NormalizedSubject(subject))
  {
    var replaced := ReplaceForbidden(subject);
    assert AllowedInFilename(replaced);
    CollapseKeepsAllowed(replaced, false);
    TrimKeepsAllowed(CollapseWhiteSpace(replaced));
  }

  /**
   * The normalized subject holds no forbidden character, no white space
   * other than single spaces, none at either end, and every
   * non-white-space character of the subject that is allowed in a file
   * name, in order.
   */
  lemma NormalizedSubjectProperties(subject: string)
    ensures var t := NormalizedSubject(subject);
      && AllowedInFilename(t)
      && SingleSpaced(t)
      && (t == [] || (!IsWhiteSpace(t[0]) && !IsWhiteSpace(t[|t| - 1])))
      && NonWhiteSpace(t) == NonWhiteSpace(ReplaceForbidden(subject))
  {
    NormalizedSubjectAllowed(subject);
    CollapseShape(ReplaceForbidden(subject));
    TrimKeepsSingleSpaced(CollapseWhiteSpace(ReplaceForbidden(subject)));
  }

  /** A text with no forbidden character is left as it is by the replacement. */
  lemma ReplaceAllowed(s: string)
    requires AllowedInFilename(s)
    ensures ReplaceForbidden(s) == s
  {
  }

  /**
   * Normalizing is idempotent: a subject that is already normalized is
   * its own normalized form.
   */
  lemma NormalizedSubjectIdempotent(subject: string)
    ensures NormalizedSubject(NormalizedSubject(subject)) == NormalizedSubject(subject)
  {
    var t := NormalizedSubject(subject);
    NormalizedSubjectProperties(subject);
    ReplaceAllowed(t);
    CollapseRestSingleSpaced(t, false);
    TrimTrimmed(t);
  }

  /**
   * Two clean pieces of subject with a run of white space between them
   * normalize to the two pieces joined by exactly one space.
   */
  lemma NormalizedSubjectJoin(a: string, w: string, b: string)
    requires a != [] && b != [] && w != [] && AllWhiteSpace(w)
    requires AllowedInFilename(a) && AllowedInFilename(b) && SingleSpaced(a) && SingleSpaced(b)
    requires !IsWhiteSpace(a[|a| - 1]) && !IsWhiteSpace(b[0])
    ensures NormalizedSubject(a + w + b) == Trim(a + " " + b)
    ensures !IsWhiteSpace(a[0]) && !IsWhiteSpace(b[|b| - 1]) ==> NormalizedSubject(a + w + b) == a + " " + b
  {
    var s := a + w + b;
    assert AllowedInFilename(s) by {
      forall i | 0 <= i < |s|
        ensures !IsForbiddenInFilename(s[i])
      {
        if |a| <= i < |a| + |w| {
          assert s[i] == w[i - |a|];
        }
      }
    }
    ReplaceAllowed(s);
    assert (w + b)[0] == w[0];
    assert s == a + (w + b);
    CollapseAppend(a, w + b);
    CollapseAppend(w, b);
    CollapseRun(w);
    CollapseRestSingleSpaced(a, false);
    CollapseRestSingleSpaced(b, false);
    assert CollapseWhiteSpace(s) == a + " " + b;
    var j := a + " " + b;
    if !IsWhiteSpace(a[0]) && !IsWhiteSpace(b[|b| - 1]) {
      assert j[0] == a[0] && j[|j| - 1] == b[|b| - 1];
      TrimTrimmed(j);
    }
  }

  const MaxSubjectLength: nat := 100

  /** `safeSubject`: the normalized subject cut to its first 100 characters. */
  function SafeSubject(subject: string): (r: string)
    ensures |r| <= MaxSubjectLength && |r| <= |subject|
  {
    var t := NormalizedSubject(subject);
    t[..if |t| < MaxSubjectLength then |t| else MaxSubjectLength]
  }

  /**
   * The subject segment of the storage key: no forbidden character, no
   * leading white space, only single spaces, a prefix of the normalized
   * subject, and exactly 100 characters long when that is longer.  The
   * cut may leave a trailing space.
   */
  lemma SafeSubjectProperties(subject: string)
    ensures var r := SafeSubject(subject);
      var t := NormalizedSubject(subject);
      && |r| == (if |t| < MaxSubjectLength then |t| else MaxSubjectLength)
      && r == t[..|r|]
      && AllowedInFilename(r)
      && SingleSpaced(r)
      && (r == [] || !IsWhiteSpace(r[0]))
  {
    var t := NormalizedSubject(subject);
    NormalizedSubjectProperties(subject);
    CutKeepsShape(t, if |t| < MaxSubjectLength then |t| else MaxSubjectLength);
  }

  /**
   * A subject made of two clean pieces with white space between them, short
   * enough not to be cut, becomes the two pieces joined by one space.
   */
  lemma SafeSubjectJoin(a: string, w: string, b: string)
    requires a != [] && b != [] && w != [] && AllWhiteSpace(w)
    requires AllowedInFilename(a) && AllowedInFilename(b) && SingleSpaced(a) && SingleSpaced(b)
    requires !IsWhiteSpace(a[0]) && !IsWhiteSpace(a[|a| - 1]) && !IsWhiteSpace(b[0]) && !IsWhiteSpace(b[|b| - 1])
    requires |a| + 1 + |b| <= MaxSubjectLength
    ensures SafeSubject(a + w + b) == a + " " + b
  {
    NormalizedSubjectJoin(a, w, b);
  }

  /** A prefix of a clean subject is clean, except that it may now end in a space. */
  lemma CutKeepsShape(t: string, n: nat)
    requires n <= |t|
    requires AllowedInFilename(t) && SingleSpaced(t) && (t == [] || !IsWhiteSpace(t[0]))
    ensures AllowedInFilename(t[..n]) && SingleSpaced(t[..n]) && (n == 0 || !IsWhiteSpace(t[..n][0]))
  {
    assert forall i :: 0 <= i < n ==> t[..n][i] == t[i];
  }

  /** `generateFilename`: `folder/YYYY-MM-DD - subject.md`; `None` when the date is invalid. */
  function GenerateFilename(email: ParsedEmail, inboxFolder: string): (r: Option<string>)
    ensures r.None? <==> email.date.InvalidDate?
  {
    match FormatDate(email.date)
    case None => None
    case Some(date) => Some(inboxFolder + "/" + date + " - " + SafeSubject(email.subject) + ".md")
  }

  /** The storage key of an email with a valid date, spelled out. */
  lemma FilenameShape(email: ParsedEmail, inboxFolder: string)
    ensures email.date.InvalidDate? ==> GenerateFilename(email, inboxFolder).None?
    ensures email.date.Utc? ==>
      GenerateFilename(email, inboxFolder) ==
      Some(inboxFolder + "/" + DayString(email.date) + " - " + SafeSubject(email.subject) + ".md")
  {
    FormatDateIsDay(email.date);
  }

  /** The key depends on the date and the subject only: body, sender, source and id do not matter. */
  lemma FilenameDependsOnDateAndSubject(e1: ParsedEmail, e2: ParsedEmail, inboxFolder: string)
    requires e1.date == e2.date && e1.subject == e2.subject
    ensures GenerateFilename(e1, inboxFolder) == GenerateFilename(e2, inboxFolder)
  {
  }

  /** Two notes filed under the same key in one folder are from the same UTC day. */
  lemma FilenameDeterminesDay(e1: ParsedEmail, e2: ParsedEmail, inboxFolder: string)
    requires GenerateFilename(e1, inboxFolder).Some?
    requires GenerateFilename(e1, inboxFolder) == GenerateFilename(e2, inboxFolder)
    ensures e1.date.Utc? && e2.date.Utc?
    ensures (e1.date.year, e1.date.month, e1.date.day) == (e2.date.year, e2.date.month, e2.date.day)
  {
    FilenameShape(e1, inboxFolder);
    FilenameShape(e2, inboxFolder);
    KeyDeterminesDay(inboxFolder, e1.date, e2.date, SafeSubject(e1.subject), SafeSubject(e2.subject));
  }

  lemma KeyDeterminesDay(folder: string, d1: Date, d2: Date, subject1: string, subject2: string)
    requires d1.Utc? && d2.Utc?
    requires folder + "/" + DayString(d1) + " - " + subject1 + ".md" ==
             folder + "/" + DayString(d2) + " - " + subject2 + ".md"
    ensures (d1.year, d1.month, d1.day) == (d2.year, d2.month, d2.day)
  {
    DropFolder(folder, DayString(d1), DayString(d2), subject1, subject2);
    DayStringRoundTrip(d1, " - " + subject1 + ".md");
    DayStringRoundTrip(d2, " - " + subject2 + ".md");
  }

  lemma DropFolder(folder: string, day1: string, day2: string, subject1: string, subject2: string)
    requires folder + "/" + day1 + " - " + subject1 + ".md" == folder + "/" + day2 + " - " + subject2 + ".md"
    ensures day1 + (" - " + subject1 + ".md") == day2 + (" - " + subject2 + ".md")
  {
    var prefix := folder + "/";
    var p1 := day1 + (" - " + subject1 + ".md");
    var p2 := day2 + (" - " + subject2 + ".md");
    assert prefix + p1 == folder + "/" + day1 + " - " + subject1 + ".md";
    assert prefix + p2 == folder + "/" + day2 + " - " + subject2 + ".md";
    assert (prefix + p1)[|prefix|..] == p1;
    assert (prefix + p2)[|prefix|..] == p2;
  }

  // ---------------------------------------------------------------------
  // Body

  const CrLfBlankLine: string := "\r\n\r\n"
  const LfBlankLine: string := "\n\n"

  /**
   * `extractBody`: everything after the first CRLF blank line; failing
   * that, after the first LF blank line; failing that, nothing.
   */
  function ExtractBody(raw: string): (body: string)
    ensures |body| <= |raw| && body == raw[|raw| - |body|..]
  {
    SplitTailSuffix(raw, CrLfBlankLine);
    SplitTailSuffix(raw, LfBlankLine);
    var parts := Split(raw, CrLfBlankLine);
    if |parts| < 2 then Join(Split(raw, LfBlankLine)[1..], LfBlankLine)
    else Join(parts[1..], CrLfBlankLine)
  }

  /** The body is the text after the first blank line, CRLF style preferred. */
  lemma ExtractBodySpec(raw: string)
    ensures IndexOf(raw, CrLfBlankLine).Some? ==>
      ExtractBody(raw) == raw[IndexOf(raw, CrLfBlankLine).value + 4..]
    ensures IndexOf(raw, CrLfBlankLine).None? && IndexOf(raw, LfBlankLine).Some? ==>
      ExtractBody(raw) == raw[IndexOf(raw, LfBlankLine).value + 2..]
    ensures IndexOf(raw, CrLfBlankLine).None? && IndexOf(raw, LfBlankLine).None? ==>
      ExtractBody(raw) == ""
  {
    match IndexOf(raw, CrLfBlankLine)
    case Some(i) =>
      ExtractBodyAfterCrLf(raw, i);
    case None =>
      match IndexOf(raw, LfBlankLine)
      case Some(j) =>
        ExtractBodyAfterLf(raw, j);
      case None =>
        ExtractBodyNoBlankLine(raw);
  }

  lemma ExtractBodyAfterCrLf(raw: string, i: nat)
    requires IndexOf(raw, CrLfBlankLine) == Some(i)
    ensures i + 4 <= |raw| && ExtractBody(raw) == raw[i + 4..]
  {
    SplitAt(raw, CrLfBlankLine, i);
    SplitTail(raw, CrLfBlankLine, i);
  }

  lemma ExtractBodyAfterLf(raw: string, j: nat)
    requires IndexOf(raw, CrLfBlankLine).None? && IndexOf(raw, LfBlankLine) == Some(j)
    ensures j + 2 <= |raw| && ExtractBody(raw) == raw[j + 2..]
  {
    SplitNone(raw, CrLfBlankLine);
    SplitTail(raw, LfBlankLine, j);
  }

  lemma ExtractBodyNoBlankLine(raw: string)
    requires IndexOf(raw, CrLfBlankLine).None? && IndexOf(raw, LfBlankLine).None?
    ensures ExtractBody(raw) == ""
  {
    SplitNone(raw, CrLfBlankLine);
    SplitNone(raw, LfBlankLine);
  }

  // ---------------------------------------------------------------------
  // Markdown note

  /** The YAML front matter block of the note, one line per entry, between `---` fences. */
  function FrontMatter(email: ParsedEmail, created: string): seq<string>
  {
    [ "---",
      "tags:",
      "  - all",
      "  - email-task",
      "created: " + created,
      "from: " + email.from.email,
      "subject: " + EscapeYaml(email.subject),
      "email_id: " + email.messageId,
      "source: " + SourceName(email.source),
      "---" ]
  }

  /** The to-do checklist and the header summary that follow the front matter, up to the body. */
  function EmailSection(email: ParsedEmail, longDate: string): seq<string>
  {
    [ "",
      "## Tasks in this note",
      "",
      "- [ ] Review and process this email",
      "",
      "---",
      "## Email",
      "**From:** " + email.from.name + " <" + email.from.email + ">",
      "**Date:** " + longDate,
      "**Subject:** " + email.subject,
      "" ]
  }

  /** The lines after the body: a rule and an empty notes section. */
  const NotesSection: seq<string> := ["", "---", "## Notes", "", ""]

  /** The lines of the note template, in order; the note is these lines joined by LF. */
  function MarkdownLines(email: ParsedEmail, created: string, longDate: string): seq<string>
  {
    FrontMatter(email, created) + EmailSection(email, longDate) + [email.body] + NotesSection
  }

  /**
   * `generateMarkdown`: the note for an email; `formatDateLong` is the
   * locale-dependent long date.  `None` when the date is invalid.
   */
  function GenerateMarkdown(email: ParsedEmail, formatDateLong: Date -> string): (r: Option<string>)
    ensures r.None? <==> email.date.InvalidDate?
  {
    match FormatDate(email.date)
    case None => None
    case Some(created) => Some(Join(MarkdownLines(email, created, formatDateLong(email.date)), "\n"))
  }

  /** The note exists exactly when the date is valid, and then its creation date is the UTC day. */
  lemma GenerateMarkdownDefined(email: ParsedEmail, formatDateLong: Date -> string)
    ensures GenerateMarkdown(email, formatDateLong).None? <==> email.date.InvalidDate?
    ensures email.date.Utc? ==>
      (GenerateMarkdown(email, formatDateLong) ==
       Some(Join(MarkdownLines(email, DayString(email.date), formatDateLong(email.date)), "\n")))
  {
    FormatDateIsDay(email.date);
  }

  lemma FrontMatterSingleLines(email: ParsedEmail, created: string)
    requires '\n' !in created && '\n' !in email.from.email && '\n' !in email.subject && '\n' !in email.messageId
    ensures forall j :: 0 <= j < |FrontMatter(email, created)| ==> '\n' !in FrontMatter(email, created)[j]
  {
    assert '\n' !in EscapeYaml(email.subject);
    assert '\n' !in SourceName(email.source);
  }

  /**
   * When the sender address, subject and id hold no newline, the first
   * ten lines of the note are exactly the front matter, so each field
   * can be read back from its own line.
   */
  lemma MarkdownFrontMatter(email: ParsedEmail, formatDateLong: Date -> string)
    requires email.date.Utc?
    requires '\n' !in email.from.email && '\n' !in email.subject && '\n' !in email.messageId
    ensures GenerateMarkdown(email, formatDateLong).Some?
    ensures var lines := Split(GenerateMarkdown(email, formatDateLong).value, "\n");
      |lines| >= 10 && lines[..10] == FrontMatter(email, DayString(email.date))
  {
    GenerateMarkdownDefined(email, formatDateLong);
    DayStringChars(email.date);
    var front := FrontMatter(email, DayString(email.date));
    FrontMatterSingleLines(email, DayString(email.date));
    SplitJoinFront(front, EmailSection(email, formatDateLong(email.date)) + [email.body] + NotesSection, '\n');
    assert MarkdownLines(email, DayString(email.date), formatDateLong(email.date)) ==
      front + (EmailSection(email, formatDateLong(email.date)) + [email.body] + NotesSection);
  }

  /** Lines free of the separator come back first when the joined text is split again. */
  lemma SplitJoinFront(front: seq<string>, rest: seq<string>, c: char)
    requires forall j :: 0 <= j < |front| ==> c !in front[j]
    ensures |Split(Join(front + rest, [c]), [c])| >= |front|
    ensures Split(Join(front + rest, [c]), [c])[..|front|] == front
  {
    var lines := front + rest;
    assert forall j :: 0 <= j < |front| ==> lines[j] == front[j];
    SplitJoinPrefix(lines, c, |front|);
    assert lines[..|front|] == front;
  }

  /** What follows the body in every note. */
  const NotesTail: string := "\n\n---\n## Notes\n\n"

  /** The note ends with the body, verbatim, and then the empty notes section. */
  lemma MarkdownEndsWithBody(email: ParsedEmail, formatDateLong: Date -> string)
    requires email.date.Utc?
    ensures GenerateMarkdown(email, formatDateLong).Some?
    ensures var md := GenerateMarkdown(email, formatDateLong).value;
      |md| >= |email.body| + |NotesTail| && md[|md| - |email.body| - |NotesTail|..] == email.body + NotesTail
  {
    GenerateMarkdownDefined(email, formatDateLong);
    var head := FrontMatter(email, DayString(email.date)) + EmailSection(email, formatDateLong(email.date));
    JoinAround(head, email.body, NotesSection, "\n");
    NotesSectionText();
    EndsWith(Join(head, "\n") + "\n", email.body + NotesTail);
  }

  /** The notes section joined behind the body's line break is the fixed tail. */
  lemma NotesSectionText()
    ensures "\n" + Join(NotesSection, "\n") == NotesTail
  {
    JoinCons("", ["---", "## Notes", "", ""], "\n");
    JoinCons("---", ["## Notes", "", ""], "\n");
    JoinCons("## Notes", ["", ""], "\n");
    JoinCons("", [""], "\n");
  }

  lemma JoinAround(head: seq<string>, x: string, tail: seq<string>, sep: string)
    requires |head| > 0 && |tail| > 0
    ensures Join(head + [x] + tail, sep) == (Join(head, sep) + sep) + (x + (sep + Join(tail, sep)))
  {
    var right := [x] + tail;
    assert head + [x] + tail == head + right;
    JoinAppend(head, right, sep);
    JoinCons(x, tail, sep);
    var a, b := Join(head, sep) + sep, Join(right, sep);
    assert b == x + (sep + Join(tail, sep));
    assert Join(head + right, sep) == a + b;
  }

  lemma EndsWith(p: string, q: string)
    ensures |p + q| >= |q| && (p + q)[|p + q| - |q|..] == q
  {
  }

  // ---------------------------------------------------------------------
  // Parsing the incoming message

  /** Capture groups 1 (display name, maybe absent) and 2 (address) of the From regex. */
  datatype FromMatch = FromMatch(displayName: Option<string>, address: string)

  /** The incoming message: envelope sender, headers, raw text. */
  datatype EmailMessage = EmailMessage(from: string, headers: Headers, raw: string)

  /**
   * What parsing takes from outside the message: the clock reading
   * `new Date()`, the value `generateId()` returns, `new Date(header)`,
   * the From regex match, and the locale's long date format.
   */
  datatype Runtime = Runtime(
    now: Date,
    generatedId: string,
    parseDate: string -> Date,
    matchFrom: string -> Option<FromMatch>,
    formatDateLong: Date -> string)

  /**
   * The sender from the envelope address and its regex match: the name
   * is group 1, else group 2, else the whole address; the address is
   * group 2, else the whole address.  Empty groups count as absent.
   */
  function ParseSender(fromHeader: string, m: Option<FromMatch>): (s: Sender)
    ensures m.None? ==> s == Sender(fromHeader, fromHeader)
    ensures m.Some? && Truthy(m.value.displayName) ==> s.name == m.value.displayName.value
    ensures m.Some? && !Truthy(m.value.displayName) && m.value.address != "" ==> s.name == m.value.address
    ensures m.Some? && !Truthy(m.value.displayName) && m.value.address == "" ==> s.name == fromHeader
    ensures m.Some? && m.value.address != "" ==> s.email == m.value.address
    ensures m.Some? && m.value.address == "" ==> s.email == fromHeader
  {
    var group1 := if m.Some? then m.value.displayName else None;
    var group2 := if m.Some? then Some(m.value.address) else None;
    Sender(Or(group1, Or(group2, fromHeader)), Or(group2, fromHeader))
  }

  /** `parseEmail`: the header defaults and the pieces the note is built from. */
  function ParseEmail(message: EmailMessage, rt: Runtime): (p: ParsedEmail)
    ensures !Truthy(Get(message.headers, "subject")) ==> p.subject == "No Subject"
    ensures Truthy(Get(message.headers, "subject")) ==> p.subject == message.headers["subject"]
    ensures Truthy(Get(message.headers, "message-id")) ==>
      p.messageId == SanitizeMessageId(message.headers["message-id"])
    ensures !Truthy(Get(message.headers, "message-id")) ==> p.messageId == SanitizeMessageId(rt.generatedId)
    ensures forall i :: 0 <= i < |p.messageId| ==> IsIdChar(p.messageId[i])
    ensures !Truthy(Get(message.headers, "date")) ==> p.date == rt.now
    ensures Truthy(Get(message.headers, "date")) ==> p.date == rt.parseDate(message.headers["date"])
    ensures p.from == ParseSender(message.from, rt.matchFrom(message.from))
    ensures p.body == ExtractBody(message.raw) && p.source == DetectEmailSource(message.headers)
  {
    var headers := message.headers;
    var subject := Or(Get(headers, "subject"), "No Subject");
    var messageId := Or(Get(headers, "message-id"), rt.generatedId);
    var dateHeader := Get(headers, "date");
    ParsedEmail(
      SanitizeMessageId(messageId),
      ParseSender(message.from, rt.matchFrom(message.from)),
      subject,
      if Truthy(dateHeader) then rt.parseDate(dateHeader.value) else rt.now,
      ExtractBody(message.raw),
      DetectEmailSource(headers))
  }

  /** Without a Date header the key carries the day the message was processed. */
  lemma UndatedMessageFiledUnderToday(message: EmailMessage, rt: Runtime, inboxFolder: string)
    requires !Truthy(Get(message.headers, "date")) && rt.now.Utc?
    ensures GenerateFilename(ParseEmail(message, rt), inboxFolder) ==
      Some(inboxFolder + "/" + DayString(rt.now) + " - " + SafeSubject(ParseEmail(message, rt).subject) + ".md")
  {
    FilenameShape(ParseEmail(message, rt), inboxFolder);
  }
}

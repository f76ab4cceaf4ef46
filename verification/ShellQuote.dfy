/**
 The `gh issue create` command that is logged for an unexpected error (rust/src/bug_report.rs),
 against the quoting rules of a POSIX shell.
 */
module ShellQuote {
  import opened Wrappers

  // ---- Words of a command line ----------------------------------------------------------

  predicate IsBlank(c: char) {
    c == ' ' || c == '\t'
  }

  /** Characters that mean something to the shell when they are not quoted. */
  predicate IsSpecial(c: char) {
    c in {'|', '&', ';', '<', '>', '(', ')', '$', '`', '"', '\n', '*', '?', '[', ']', '#', '~', '=', '%', '!', '{', '}'}
  }

  /** A character that stands for itself outside quotes. */
  predicate IsPlain(c: char) {
    !IsBlank(c) && !IsSpecial(c) && c != '\'' && c != '\\'
  }

  function Flush(word: Option<string>): seq<string> {
    match word case None => [] case Some(w) => [w]
  }

  function Extend(word: Option<string>, c: char): Option<string> {
    match word case None => Some([c]) case Some(w) => Some(w + [c])
  }

  /**
   The words of a command line by sections 2.2.1 (backslash) and 2.2.2 (single quotes) of the POSIX
   Shell Command Language. `word` is the word being read and `quoted` says whether a single quote is
   open. There is no answer for an open quote at the end or for any other unquoted special character.
   */
  function Words(s: string, word: Option<string>, quoted: bool): Option<seq<string>>
    decreases |s|
  {
    if s == "" then if quoted then None else Some(Flush(word))
    else if quoted then
      if s[0] == '\'' then Words(s[1..], word, false) else Words(s[1..], Extend(word, s[0]), true)
    else if s[0] == '\'' then Words(s[1..], if word.None? then Some("") else word, true)
    else if s[0] == '\\' then
      if |s| == 1 then None
      else if s[1] == '\n' then Words(s[2..], word, false)
      else Words(s[2..], Extend(word, s[1]), false)
    else if IsBlank(s[0]) then Prepend(Flush(word), Words(s[1..], None, false))
    else if IsSpecial(s[0]) then None
    else Words(s[1..], Extend(word, s[0]), false)
  }

  function Prepend(first: seq<string>, rest: Option<seq<string>>): Option<seq<string>> {
    match rest case None => None case Some(words) => Some(first + words)
  }

  // ---- Escaping -------------------------------------------------------------------------

  /** `shell_escape`: every single quote becomes `'\''`. */
  function ShellEscape(s: string): string {
    if s == "" then ""
    else (if s[0] == '\'' then "'\\''" else [s[0]]) + ShellEscape(s[1..])
  }

  /** Inside single quotes the escaped text and the closing quote read as the text itself. */
  lemma {:induction false} EscapedReadsAsItself(s: string, before: string, rest: string)
    ensures Words(ShellEscape(s) + "'" + rest, Some(before), true) == Words(rest, Some(before + s), false)
    decreases |s|
  {
    var text := ShellEscape(s) + "'" + rest;
    if s == "" {
      assert text == "'" + rest && text[1..] == rest;
      assert before + s == before;
    } else {
      var tail := ShellEscape(s[1..]) + "'" + rest;
      EscapedReadsAsItself(s[1..], before + [s[0]], rest);
      assert before + [s[0]] + s[1..] == before + s;
      if s[0] == '\'' {
        assert text == "'\\''" + tail;
        QuoteInQuotes(before, tail);
      } else {
        assert text == [s[0]] + tail && text[1..] == tail;
      }
    }
  }

  lemma QuoteInQuotes(before: string, tail: string)
    ensures Words("'\\''" + tail, Some(before), true) == Words(tail, Some(before + ['\'']), true)
  {
    var text := "'\\''" + tail;
    assert text[1..] == "\\''" + tail;
    assert text[1..][2..] == "'" + tail;
    assert text[1..][2..][1..] == tail;
    assert Words(text, Some(before), true) == Words(text[1..], Some(before), false);
    assert Words(text[1..], Some(before), false) == Words(text[1..][2..], Some(before + ['\'']), false);
  }

  /** A quoted escape followed by a blank or the end of the line is one word, whatever the text. */
  lemma QuotedIsOneWord(s: string, rest: string)
    ensures Words("'" + ShellEscape(s) + "' " + rest, None, false) == Prepend([s], Words(rest, None, false))
    ensures Words("'" + ShellEscape(s) + "'", None, false) == Some([s])
  {
    var text := "'" + ShellEscape(s) + "' " + rest;
    assert text[1..] == ShellEscape(s) + "'" + (" " + rest);
    EscapedReadsAsItself(s, "", " " + rest);
    assert "" + s == s && (" " + rest)[1..] == rest;
    var last := "'" + ShellEscape(s) + "'";
    assert last[1..] == ShellEscape(s) + "'" + "";
    EscapedReadsAsItself(s, "", "");
  }

  lemma {:induction false} PlainReadsAsItself(p: string, before: string, rest: string)
    requires forall i :: 0 <= i < |p| ==> IsPlain(p[i])
    ensures Words(p + rest, Some(before), false) == Words(rest, Some(before + p), false)
    decreases |p|
  {
    if p == "" {
      assert p + rest == rest && before + p == before;
    } else {
      assert (p + rest)[1..] == p[1..] + rest;
      PlainReadsAsItself(p[1..], before + [p[0]], rest);
      assert before + [p[0]] + p[1..] == before + p;
    }
  }

  /** A plain word and the blank after it. */
  lemma PlainIsOneWord(p: string, rest: string)
    requires p != "" && forall i :: 0 <= i < |p| ==> IsPlain(p[i])
    ensures Words(p + " " + rest, None, false) == Prepend([p], Words(rest, None, false))
  {
    var text := p + " " + rest;
    assert text[1..] == p[1..] + (" " + rest);
    PlainReadsAsItself(p[1..], [p[0]], " " + rest);
    assert [p[0]] + p[1..] == p && (" " + rest)[1..] == rest;
  }

  // ---- The title ------------------------------------------------------------------------

  function Cleaned(s: string): (c: string)
    ensures |c| == |s|
    ensures forall i :: 0 <= i < |s| ==> c[i] == if s[i] == '\n' then ' ' else s[i]
  {
    if s == "" then "" else [if s[0] == '\n' then ' ' else s[0]] + Cleaned(s[1..])
  }

  /** How many characters of a text the title keeps: all, or those that leave room for the ellipsis. */
  function Kept(n: nat, maxLen: nat): nat {
    if n <= maxLen then n else if maxLen < 3 then 0 else maxLen - 3
  }

  /** `sanitize_for_title`; the subtraction saturates at 0. */
  function SanitizeForTitle(s: string, maxLen: nat): (t: string)
    ensures '\n' !in t
    ensures |t| <= maxLen <==> |s| <= maxLen || maxLen >= 3
    ensures |s| > maxLen >= 3 ==> |t| == maxLen
    ensures |s| <= maxLen && '\n' !in s ==> t == s
    ensures |s| <= maxLen ==> |t| == |s|
    ensures |s| > maxLen ==> |t| >= 3 && t[|t| - 3..] == "..." && (maxLen < 3 ==> t == "...")
    ensures forall i :: 0 <= i < Kept(|s|, maxLen) ==> i < |t| && t[i] == if s[i] == '\n' then ' ' else s[i]
  {
    var cleaned := Cleaned(s);
    if |cleaned| <= maxLen then cleaned
    else cleaned[..if maxLen >= 3 then maxLen - 3 else 0] + "..."
  }

  // ---- The command ----------------------------------------------------------------------

  const REPO := "KimSoungRyoul/aerospike-py"

  function Title(errorDetail: string): string {
    "Unexpected error: " + SanitizeForTitle(errorDetail, 80)
  }

  function Body(version: string, context: string, errorDetail: string): string {
    "aerospike-py version: " + version + "\nContext: " + context + "\nError: " + errorDetail
  }

  /** What is printed after the text of the error; `'...'` around an escaped text each time. */
  function Command(title: string, body: string): string {
    "gh issue create --repo " + REPO + " --title '" + ShellEscape(title) + "' --body '" + ShellEscape(body) + "'"
  }

  function BodyPart(body: string): string {
    "--body" + " " + ("'" + ShellEscape(body) + "'")
  }

  function TitlePart(title: string, body: string): string {
    "--title" + " " + ("'" + ShellEscape(title) + "' " + BodyPart(body))
  }

  lemma Regroup(a: string, b: string, c: string, rest: string)
    ensures a + b + c + rest == a + b + (c + rest)
  {
  }

  lemma BodyInParts(body: string)
    ensures "' --body '" + (ShellEscape(body) + "'") == "' " + BodyPart(body)
  {
    var quoted := ShellEscape(body) + "'";
    assert "' --body '" == "' " + "--body" + " " + "'";
    assert "' --body '" + quoted == "' " + ("--body" + " " + ("'" + quoted));
    assert "'" + quoted == "'" + ShellEscape(body) + "'";
  }

  lemma TitleFlag(afterTitle: string)
    ensures " --title '" + afterTitle == " " + ("--title" + " " + ("'" + afterTitle))
  {
    assert " --title '" == " " + "--title" + " " + "'";
  }

  lemma TitleInParts(title: string, body: string)
    ensures " --title '" + (ShellEscape(title) + ("' --body '" + (ShellEscape(body) + "'")))
      == " " + TitlePart(title, body)
  {
    BodyInParts(body);
    TitleFlag(ShellEscape(title) + ("' " + BodyPart(body)));
    assert "'" + (ShellEscape(title) + ("' " + BodyPart(body))) == "'" + ShellEscape(title) + "' " + BodyPart(body);
  }

  lemma LeadInParts(rest: string)
    ensures "gh issue create --repo " + rest
      == "gh" + " " + ("issue" + " " + ("create" + " " + ("--repo" + " " + rest)))
  {
    assert "gh issue create --repo " == "gh" + " " + "issue" + " " + "create" + " " + "--repo" + " ";
  }

  lemma CommandInParts(title: string, body: string)
    ensures Command(title, body)
         == "gh" + " " + ("issue" + " " + ("create" + " " + ("--repo" + " " + (REPO + " " + TitlePart(title, body)))))
  {
    var lead, t, b := "gh issue create --repo ", ShellEscape(title), ShellEscape(body);
    Regroup(lead + REPO + " --title '" + t, "' --body '", b, "'");
    Regroup(lead + REPO + " --title '", t, "' --body '", b + "'");
    Regroup(lead + REPO, " --title '", t, "' --body '" + (b + "'"));
    Regroup(lead, REPO, " --title '", t + ("' --body '" + (b + "'")));
    TitleInParts(title, body);
    Regroup(lead, REPO, " ", TitlePart(title, body));
    LeadInParts(REPO + " " + TitlePart(title, body));
  }

  lemma RepoIsPlain()
    ensures forall i :: 0 <= i < |REPO| ==> IsPlain(REPO[i])
  {
  }

  lemma BodyPartWords(body: string)
    ensures Words(BodyPart(body), None, false) == Some(["--body", body])
  {
    QuotedIsOneWord(body, "");
    PlainIsOneWord("--body", "'" + ShellEscape(body) + "'");
    assert ["--body"] + [body] == ["--body", body];
  }

  lemma TitlePartWords(title: string, body: string)
    ensures Words(TitlePart(title, body), None, false) == Some(["--title", title, "--body", body])
  {
    BodyPartWords(body);
    QuotedIsOneWord(title, BodyPart(body));
    PlainIsOneWord("--title", "'" + ShellEscape(title) + "' " + BodyPart(body));
    assert ["--title"] + ([title] + ["--body", body]) == ["--title", title, "--body", body];
  }

  lemma LeadingWords(rest: string, words: seq<string>)
    requires Words(rest, None, false) == Some(words)
    ensures Words("gh" + " " + ("issue" + " " + ("create" + " " + ("--repo" + " " + rest))), None, false)
         == Some(["gh", "issue", "create", "--repo"] + words)
  {
    var fromFlag := "--repo" + " " + rest;
    var fromCreate := "create" + " " + fromFlag;
    var fromIssue := "issue" + " " + fromCreate;
    PlainIsOneWord("--repo", rest);
    PlainIsOneWord("create", fromFlag);
    PlainIsOneWord("issue", fromCreate);
    PlainIsOneWord("gh", fromIssue);
    assert ["gh"] + (["issue"] + (["create"] + (["--repo"] + words))) == ["gh", "issue", "create", "--repo"] + words;
  }

  /** The logged command is `gh` with exactly these arguments, for every title and body. */
  lemma CommandRecoversTitleAndBody(title: string, body: string)
    ensures Words(Command(title, body), None, false)
         == Some(["gh", "issue", "create", "--repo", REPO, "--title", title, "--body", body])
  {
    CommandInParts(title, body);
    TitlePartWords(title, body);
    RepoIsPlain();
    PlainIsOneWord(REPO, TitlePart(title, body));
    LeadingWords(REPO + " " + TitlePart(title, body), [REPO] + ["--title", title, "--body", body]);
    assert ["gh", "issue", "create", "--repo"] + ([REPO] + ["--title", title, "--body", body])
        == ["gh", "issue", "create", "--repo", REPO, "--title", title, "--body", body];
  }

  /**
   What is logged for an error. The shell passes `gh` a title that starts with the error's first characters
   on one line, cut at 80 with an ellipsis, and a body with the version, the context and the whole detail.
   */
  lemma LoggedCommandTellsTheError(version: string, context: string, errorDetail: string)
    returns (title: string, body: string)
    ensures Words(Command(Title(errorDetail), Body(version, context, errorDetail)), None, false)
         == Some(["gh", "issue", "create", "--repo", REPO, "--title", title, "--body", body])
    ensures |title| == 18 + (if |errorDetail| <= 80 then |errorDetail| else 80) && '\n' !in title
    ensures title[..18] == "Unexpected error: "
    ensures forall i :: 0 <= i < |errorDetail| && (|errorDetail| <= 80 || i < 77) ==>
              title[18 + i] == if errorDetail[i] == '\n' then ' ' else errorDetail[i]
    ensures |errorDetail| > 80 ==> title[95..] == "..."
    ensures body == "aerospike-py version: " + version + "\nContext: " + context + "\nError: " + errorDetail
  {
    title, body := Title(errorDetail), Body(version, context, errorDetail);
    CommandRecoversTitleAndBody(title, body);
    var kept := SanitizeForTitle(errorDetail, 80);
    assert title == "Unexpected error: " + kept;
    assert |errorDetail| > 80 ==> title[95..] == kept[77..];
  }
}

/** The pure text handling of bot.py: `str.split()`, `str.isdigit()`, `int()`
    and `str()` on numbers, the argument check shared by the operator
    commands, and the reply texts. */
module BotText {
  import opened Common
  import Db

  // ------------------------------------------------------------ whitespace

  /** The ASCII characters Python's `str.split()` splits on. */
  predicate IsSpace(c: char)
  {
    c == ' ' || c == '\t' || c == '\n' || c == '\r' || c == '\U{0b}' || c == '\U{0c}' ||
    ('\U{1c}' <= c <= '\U{1f}')
  }

  predicate NoSpace(s: string)
  {
    forall i :: 0 <= i < |s| ==> !IsSpace(s[i])
  }

  /** The longest prefix of `s` without whitespace. */
  function Word(s: string): (w: string)
    ensures |w| <= |s| && w == s[..|w|]
    ensures NoSpace(w)
    ensures |w| == |s| || IsSpace(s[|w|])
  {
    if s == [] || IsSpace(s[0]) then []
    else [s[0]] + Word(s[1..])
  }

  /** `s.split()`: the maximal runs of non-whitespace, in order. */
  function Split(s: string): (r: seq<string>)
    ensures forall t :: t in r ==> t != [] && NoSpace(t)
    decreases |s|
  {
    if s == [] then []
    else if IsSpace(s[0]) then Split(s[1..])
    else
      var w := Word(s);
      [w] + Split(s[|w|..])
  }

  /** `sep.join(parts)` for a one-character separator. */
  function Join(parts: seq<string>, sep: char): string
  {
    if parts == [] then []
    else if |parts| == 1 then parts[0]
    else parts[0] + [sep] + Join(parts[1..], sep)
  }

  /** Only whitespace. */
  predicate AllSpace(s: string)
  {
    forall i :: 0 <= i < |s| ==> IsSpace(s[i])
  }

  lemma {:induction false} WordOfWordThenSpace(t: string, tail: string)
    requires NoSpace(t)
    requires tail == [] || IsSpace(tail[0])
    ensures Word(t + tail) == t
    decreases |t|
  {
    if t != [] {
      assert (t + tail)[1..] == t[1..] + tail;
      WordOfWordThenSpace(t[1..], tail);
    }
  }

  /** Leading whitespace is skipped. */
  lemma {:induction false} SplitSkipsSpace(ws: string, s: string)
    requires AllSpace(ws)
    ensures Split(ws + s) == Split(s)
    decreases |ws|
  {
    if ws != [] {
      assert (ws + s)[0] == ws[0] && (ws + s)[1..] == ws[1..] + s;
      assert AllSpace(ws[1..]) by {
        forall i | 0 <= i < |ws[1..]| ensures IsSpace(ws[1..][i]) {
          assert ws[1..][i] == ws[i + 1];
        }
      }
      assert IsSpace((ws + s)[0]);
      assert Split(ws + s) == Split(ws[1..] + s);
      SplitSkipsSpace(ws[1..], s);
    } else {
      assert ws + s == s;
    }
  }

  /** A word ended by whitespace or by the end of the text is one token. */
  lemma SplitTakesWord(t: string, s: string)
    requires t != [] && NoSpace(t)
    requires s == [] || IsSpace(s[0])
    ensures Split(t + s) == [t] + Split(s)
  {
    WordOfWordThenSpace(t, s);
    assert (t + s)[|t|..] == s;
  }

  /** Splitting what was joined with single spaces gives the tokens back. */
  lemma {:induction false} SplitJoinSpaced(ts: seq<string>)
    requires forall t :: t in ts ==> t != [] && NoSpace(t)
    ensures Split(Join(ts, ' ')) == ts
    decreases |ts|
  {
    if |ts| == 1 {
      assert ts[0] in ts;
      SplitTakesWord(ts[0], []);
      assert ts[0] + [] == ts[0];
    } else if |ts| > 1 {
      var t, rest := ts[0], Join(ts[1..], ' ');
      assert t in ts;
      assert t + [' '] + rest == t + ([' '] + rest);
      SplitTakesWord(t, [' '] + rest);
      SplitSkipsSpace([' '], rest);
      assert forall t :: t in ts[1..] ==> t in ts;
      SplitJoinSpaced(ts[1..]);
    }
  }

  /** A word after leading whitespace, ended by whitespace or by the end of
      the text, is the first token. */
  lemma SplitWordAfterSpace(lead: string, word: string, rest: string)
    requires AllSpace(lead) && word != [] && NoSpace(word)
    requires rest == [] || IsSpace(rest[0])
    ensures Split(lead + word + rest) == [word] + Split(rest)
  {
    assert lead + word + rest == lead + (word + rest);
    SplitSkipsSpace(lead, word + rest);
    SplitTakesWord(word, rest);
  }

  /** A word with whitespace around it is the only token. */
  lemma SplitOneWord(lead: string, word: string, trail: string)
    requires AllSpace(lead) && AllSpace(trail) && word != [] && NoSpace(word)
    ensures Split(lead + word + trail) == [word]
  {
    SplitWordAfterSpace(lead, word, trail);
    SplitSkipsSpace(trail, []);
    assert trail + [] == trail;
  }

  /** Any run of whitespace between, before and after two words separates
      them the same way. */
  lemma SplitTwoWords(lead: string, first: string, gap: string, second: string, trail: string)
    requires AllSpace(lead) && AllSpace(gap) && gap != [] && AllSpace(trail)
    requires first != [] && NoSpace(first) && second != [] && NoSpace(second)
    ensures Split(lead + first + gap + second + trail) == [first, second]
  {
    var rest := gap + second + trail;
    assert lead + first + gap + second + trail == lead + first + rest;
    SplitOneWord(gap, second, trail);
    SplitWordAfterSpace(lead, first, rest);
  }

  // ------------------------------------------------------------ numbers

  predicate IsDigit(c: char)
  {
    '0' <= c <= '9'
  }

  /** `s.isdigit()`, for ASCII digits: non-empty and digits only. */
  predicate IsDigits(s: string)
  {
    s != [] && forall i :: 0 <= i < |s| ==> IsDigit(s[i])
  }

  /** `int(s)` for a string of digits (leading zeros allowed). */
  function DigitsValue(s: string): nat
    requires forall i :: 0 <= i < |s| ==> IsDigit(s[i])
  {
    if s == [] then 0
    else
      assert IsDigit(s[|s| - 1]);
      10 * DigitsValue(s[..|s| - 1]) + (s[|s| - 1] as int - '0' as int)
  }

  function DigitChar(d: nat): (c: char)
    requires d < 10
    ensures IsDigit(c) && c as int - '0' as int == d
  {
    ['0', '1', '2', '3', '4', '5', '6', '7', '8', '9'][d]
  }

  /** `str(n)` for a natural number. */
  function NatToString(n: nat): (s: string)
    ensures IsDigits(s)
    ensures DigitsValue(s) == n
    ensures s[0] != '0' || n == 0
  {
    if n < 10 then [DigitChar(n)]
    else
      var s := NatToString(n / 10) + [DigitChar(n % 10)];
      assert s[..|s| - 1] == NatToString(n / 10);
      s
  }

  /** `str(i)` for any integer. */
  function IntToString(i: int): string
  {
    if i < 0 then "-" + NatToString(-i) else NatToString(i)
  }

  // ------------------------------------------------------------ commands

  /** The argument check of `/cancel`, `/set_rate` and `/set_cycle`: the text
      splits into exactly two tokens and the second is all digits; the value
      is then `int` of that token. */
  function CommandArg(text: string): (r: Option<nat>)
    ensures r.Some? ==> |Split(text)| == 2 && IsDigits(Split(text)[1]) && r.value == DigitsValue(Split(text)[1])
    ensures r.None? ==> |Split(text)| != 2 || !IsDigits(Split(text)[1])
  {
    var parts := Split(text);
    if |parts| == 2 && IsDigits(parts[1]) then Some(DigitsValue(parts[1])) else None
  }

  /** A command followed by a number written out is accepted with that number. */
  lemma CommandArgAcceptsNumber(command: string, n: nat)
    requires command != [] && NoSpace(command)
    ensures CommandArg(command + " " + NatToString(n)) == Some(n)
  {
    var arg := NatToString(n);
    assert forall i :: 0 <= i < |arg| ==> !IsSpace(arg[i]);
    assert Join([command, arg], ' ') == command + " " + arg;
    SplitJoinSpaced([command, arg]);
  }

  /** The number may be surrounded by any whitespace: `" /cancel  5\n"` is
      accepted with 5. */
  lemma CommandArgAcceptsSpacedNumber(lead: string, command: string, gap: string, n: nat, trail: string)
    requires AllSpace(lead) && AllSpace(gap) && gap != [] && AllSpace(trail)
    requires command != [] && NoSpace(command)
    ensures CommandArg(lead + command + gap + NatToString(n) + trail) == Some(n)
  {
    var arg := NatToString(n);
    assert forall i :: 0 <= i < |arg| ==> !IsSpace(arg[i]);
    SplitTwoWords(lead, command, gap, arg, trail);
  }

  lemma ZeroPaddedValue()
    ensures IsDigits("0050") && DigitsValue("0050") == 50
  {
    var s0, s1, s2, s3 := "0", "00", "005", "0050";
    assert s3[..3] == s2 && s2[..2] == s1 && s1[..1] == s0 && s0[..0] == "";
    assert DigitsValue(s0) == 0;
    assert DigitsValue(s1) == 0;
    assert DigitsValue(s2) == 5;
  }

  /** `/set_rate 0050` is accepted with 50, and `str` of that value has
      no leading zero, so the reply shows `50`. */
  lemma SetRateLeadingZerosExample()
    ensures CommandArg("/set_rate 0050") == Some(50)
    ensures NatToString(50) == "50"
  {
    var command, arg := "/set_rate", "0050";
    assert NoSpace(command) && NoSpace(arg);
    SplitTwoWords("", command, " ", arg, "");
    assert "" + command + " " + arg + "" == "/set_rate 0050";
    ZeroPaddedValue();
    StrOfFifty();
  }

  lemma StrOfFifty()
    ensures NatToString(50) == "50"
  {
    assert NatToString(5) == "5";
  }

  /** `/cancel 0050` cancels job 50, but its reply echoes the token as
      typed, `0050`. */
  lemma CancelLeadingZerosExample()
    ensures CommandArg("/cancel 0050") == Some(50)
    ensures CancelledReply(Split("/cancel 0050")[1]) == CancelledReply("0050")
  {
    var command, arg := "/cancel", "0050";
    assert NoSpace(command) && NoSpace(arg);
    SplitTwoWords("", command, " ", arg, "");
    assert "" + command + " " + arg + "" == "/cancel 0050";
    ZeroPaddedValue();
  }

  lemma CancelWithPaddingExample()
    ensures CommandArg(" /cancel  5\n") == Some(5)
  {
    assert NatToString(5) == "5";
    assert " " + "/cancel" + "  " + NatToString(5) + "\n" == " /cancel  5\n";
    CommandArgAcceptsSpacedNumber(" ", "/cancel", "  ", 5, "\n");
  }

  /** A command without argument, or with a second argument, is refused. */
  lemma CommandArgRefusesOtherArity(command: string, args: seq<string>)
    requires command != [] && NoSpace(command)
    requires forall t :: t in args ==> t != [] && NoSpace(t)
    requires |args| != 1
    ensures CommandArg(Join([command] + args, ' ')) == None
  {
    SplitJoinSpaced([command] + args);
  }

  /** A non-numeric argument is refused. */
  lemma CommandArgRefusesNonDigits(command: string, arg: string)
    requires command != [] && NoSpace(command) && arg != [] && NoSpace(arg)
    requires !IsDigits(arg)
    ensures CommandArg(command + " " + arg) == None
  {
    assert Join([command, arg], ' ') == command + " " + arg;
    SplitJoinSpaced([command, arg]);
  }

  // ------------------------------------------------------------ replies

  const CancelUsage: string := "Использование: /cancel <job_id>"
  const SetRateUsage: string := "Использование: /set_rate <ms>"
  const SetCycleUsage: string := "Использование: /set_cycle <seconds>"
  const SetTokenUsage: string := "Использование: /set_token <TOKEN>"
  const NoJobs: string := "Список задач пуст."
  const JobsHeader: string := "Задачи:"

  function CancelledReply(arg: string): string
  {
    "Задача " + arg + " отменена."
  }

  function RateReply(ms: nat): string
  {
    "Задержка между сообщениями установлена: " + NatToString(ms) + " мс"
  }

  function CycleReply(seconds: nat): string
  {
    "Интервал периодических рассылок: " + NatToString(seconds) + " секунд"
  }

  const TokenSaved: string := "Новый токен сохранён, перезапустите бота: "

  /** `/set_token`: checks only that there are two tokens and echoes the
      second; nothing is stored. */
  function SetTokenReply(text: string): (r: string)
    ensures |Split(text)| != 2 ==> r == SetTokenUsage
    ensures |Split(text)| == 2 ==> r == TokenSaved + Split(text)[1]
  {
    var parts := Split(text);
    if |parts| != 2 then SetTokenUsage else TokenSaved + parts[1]
  }

  /** Whatever the whitespace around it, a single argument is echoed as the
      token, digits or not. */
  lemma SetTokenReplyEchoesToken(lead: string, command: string, gap: string, token: string, trail: string)
    requires AllSpace(lead) && AllSpace(gap) && gap != [] && AllSpace(trail)
    requires command != [] && NoSpace(command) && token != [] && NoSpace(token)
    ensures SetTokenReply(lead + command + gap + token + trail) == TokenSaved + token
  {
    SplitTwoWords(lead, command, gap, token, trail);
  }

  /** With no token, or with more than one, the reply is the usage text. */
  lemma SetTokenReplyRefusesOtherArity(command: string, args: seq<string>)
    requires command != [] && NoSpace(command)
    requires forall t :: t in args ==> t != [] && NoSpace(t)
    requires |args| != 1
    ensures SetTokenReply(Join([command] + args, ' ')) == SetTokenUsage
  {
    SplitJoinSpaced([command] + args);
  }

  function KindText(k: Db.JobKind): string
  {
    match k
    case Once => "once"
    case Interval => "interval"
  }

  function StatusText(s: Db.Status): string
  {
    match s
    case Active => "active"
    case Cancelled => "cancelled"
  }

  /** One line of `/jobs`: `ID <id> | <type> | <status>`. */
  function JobLine(j: Db.Job): string
  {
    "ID " + IntToString(j.id) + " | " + KindText(j.kind) + " | " + StatusText(j.status)
  }

  function JobLines(rows: seq<Db.Job>): (lines: seq<string>)
    ensures |lines| == |rows|
    ensures forall i :: 0 <= i < |rows| ==> lines[i] == JobLine(rows[i])
  {
    if rows == [] then [] else [JobLine(rows[0])] + JobLines(rows[1..])
  }

  /** `s.split(sep)` for a one-character separator: empty pieces are kept. */
  function SplitOn(s: string, sep: char): (r: seq<string>)
    ensures |r| >= 1
    decreases |s|
  {
    if s == [] then [[]]
    else if s[0] == sep then [[]] + SplitOn(s[1..], sep)
    else
      var rest := SplitOn(s[1..], sep);
      [[s[0]] + rest[0]] + rest[1..]
  }

  /** The reply of `/jobs` for the rows `list_jobs` returned. */
  function JobsReply(rows: seq<Db.Job>): string
  {
    if rows == [] then NoJobs
    else JobsHeader + "\n" + Join(JobLines(rows), '\n')
  }

  lemma {:induction false} SplitOnNoSep(p: string, sep: char, tail: string)
    requires forall i :: 0 <= i < |p| ==> p[i] != sep
    ensures SplitOn(p + tail, sep) == [p + SplitOn(tail, sep)[0]] + SplitOn(tail, sep)[1..]
    decreases |p|
  {
    var t := SplitOn(tail, sep);
    if p == [] {
      assert p + tail == tail && p + t[0] == t[0];
    } else {
      assert (p + tail)[1..] == p[1..] + tail;
      SplitOnNoSep(p[1..], sep, tail);
      var rest := SplitOn(p[1..] + tail, sep);
      assert rest[0] == p[1..] + t[0] && rest[1..] == t[1..];
      assert [p[0]] + (p[1..] + t[0]) == p + t[0];
    }
  }

  /** Splitting a join on its separator gives the parts back. */
  lemma {:induction false} SplitOnJoin(parts: seq<string>, sep: char)
    requires |parts| >= 1
    requires forall k, i :: 0 <= k < |parts| && 0 <= i < |parts[k]| ==> parts[k][i] != sep
    ensures SplitOn(Join(parts, sep), sep) == parts
    decreases |parts|
  {
    var p := parts[0];
    if |parts| == 1 {
      SplitOnNoSep(p, sep, []);
      assert p + [] == p;
    } else {
      var rest := Join(parts[1..], sep);
      SplitOnJoin(parts[1..], sep);
      SplitOnNoSep(p, sep, [sep] + rest);
      assert p + [sep] + rest == p + ([sep] + rest);
      assert ([sep] + rest)[1..] == rest;
      assert SplitOn([sep] + rest, sep) == [[]] + parts[1..];
      assert p + [] == p;
    }
  }

  lemma NoNewlineInJobLine(j: Db.Job)
    ensures forall i :: 0 <= i < |JobLine(j)| ==> JobLine(j)[i] != '\n'
  {
    var n := NatToString(if j.id < 0 then -j.id else j.id);
    assert forall i :: 0 <= i < |n| ==> IsDigit(n[i]);
  }

  /** The `/jobs` reply is the header line followed by exactly one line per
      job, in the given order. */
  lemma JobsReplyLines(rows: seq<Db.Job>)
    requires rows != []
    ensures SplitOn(JobsReply(rows), '\n') == [JobsHeader] + JobLines(rows)
  {
    var lines := JobLines(rows);
    forall k | 0 <= k < |lines|
      ensures forall i :: 0 <= i < |lines[k]| ==> lines[k][i] != '\n'
    {
      NoNewlineInJobLine(rows[k]);
    }
    SplitOnJoin([JobsHeader] + lines, '\n');
    assert Join([JobsHeader] + lines, '\n') == JobsHeader + "\n" + Join(lines, '\n');
  }
}

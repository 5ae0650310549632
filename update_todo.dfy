/** The TODO list updater (scripts/update-todo.js): it checks the task id,
    marks the task's pending or in-progress lines completed, and stamps the
    "Last Updated:" header. */
module UpdateTodo {
  import opened Text

  predicate IsDigit(c: char)
  {
    '0' <= c <= '9'
  }

  /** `/^[A-Z]\d-\d{2}$/`, such as "P1-06". */
  predicate ValidTaskId(id: string)
  {
    |id| == 5 && 'A' <= id[0] <= 'Z' && IsDigit(id[1]) && id[2] == '-' && IsDigit(id[3]) && IsDigit(id[4])
  }

  function PendingPrefix(id: string): string { "- [ ] " + id + ":" }

  function InProgressPrefix(id: string): string { "- [~] " + id + ":" }

  function DonePrefix(id: string): string { "- [x] " + id + ":" }

  /** The first `)` at or after `j`. */
  function CloseParen(s: string, j: nat): (r: Option<nat>)
    requires j <= |s|
    ensures r.Some? ==> j <= r.value < |s| && s[r.value] == ')'
    ensures r.Some? ==> forall k :: j <= k < r.value ==> s[k] != ')'
    ensures r.None? ==> forall k :: j <= k < |s| ==> s[k] != ')'
    decreases |s| - j
  {
    if j == |s| then None
    else if s[j] == ')' then Some(j)
    else CloseParen(s, j + 1)
  }

  /** The global replacement of a `(open` ... `)` group and the blanks
      after it by nothing, from position `i`, as line 35 and line 41 of the
      script do with `open` "started:" and "created:": the group runs to the
      first `)` and the scan resumes after the removed blanks. */
  function RemoveMetaFrom(s: string, i: nat, open: string): (r: string)
    requires i <= |s|
    ensures |r| <= |s| - i
    decreases |s| - i
  {
    if i == |s| then []
    else if StartsWith(s[i..], "(" + open) && CloseParen(s, i + 1 + |open|).Some? then
      RemoveMetaFrom(s, SkipJsSpace(s, CloseParen(s, i + 1 + |open|).value + 1), open)
    else [s[i]] + RemoveMetaFrom(s, i + 1, open)
  }

  function RemoveMeta(s: string, open: string): string
  {
    RemoveMetaFrom(s, 0, open)
  }

  /** A text with no `(` keeps every character. */
  lemma {:induction false} RemoveMetaFromPlain(s: string, i: nat, open: string)
    requires i <= |s| && '(' !in s
    ensures RemoveMetaFrom(s, i, open) == s[i..]
    decreases |s| - i
  {
    if i < |s| {
      assert s[i] in s;
      assert !StartsWith(s[i..], "(" + open) by {
        assert s[i..][0] == s[i] && ("(" + open)[0] == '(';
      }
      RemoveMetaFromPlain(s, i + 1, open);
      assert s[i..] == [s[i]] + s[i + 1..];
    }
  }

  /** A completed task line: the id, the remaining text if any, and the
      completion stamp. */
  function Completed(id: string, rest: string, now: string): string
  {
    DonePrefix(id) + (if rest != "" then " " + rest else "") + " (completed: " + now + ")"
  }

  /** What follows the prefix, trimmed, with the metadata `open` removed. */
  function Rest(line: string, prefix: string, open: string): string
    requires |prefix| <= |line|
  {
    JsTrim(RemoveMeta(JsTrim(line[|prefix|..]), open))
  }

  /** The loop body for one line. */
  function RewriteLine(line: string, id: string, now: string): (r: string)
    ensures !StartsWith(line, InProgressPrefix(id)) && !StartsWith(line, PendingPrefix(id)) ==> r == line
  {
    if StartsWith(line, InProgressPrefix(id)) then
      Completed(id, Rest(line, InProgressPrefix(id), "started:"), now)
    else if StartsWith(line, PendingPrefix(id)) then
      Completed(id, Rest(line, PendingPrefix(id), "created:"), now)
    else line
  }

  /** A rewritten line is the completed form of the task, whose remaining
      text is the trimmed tail of the old line when that tail holds no
      metadata group. */
  lemma RewriteLineCompletes(line: string, id: string, now: string, prefix: string, open: string)
    requires (prefix, open) == (InProgressPrefix(id), "started:")
          || (!StartsWith(line, InProgressPrefix(id)) && (prefix, open) == (PendingPrefix(id), "created:"))
    requires StartsWith(line, prefix)
    ensures RewriteLine(line, id, now) == Completed(id, Rest(line, prefix, open), now)
    ensures '(' !in JsTrim(line[|prefix|..]) ==> Rest(line, prefix, open) == JsTrim(line[|prefix|..])
  {
    var tail := JsTrim(line[|prefix|..]);
    if '(' !in tail {
      RemoveMetaFromPlain(tail, 0, open);
      assert tail[0..] == tail;
      JsTrimIdempotent(tail);
    }
  }

  /** A completed line is neither pending nor in progress. */
  lemma CompletedIsFinal(id: string, rest: string, now: string)
    ensures StartsWith(Completed(id, rest, now), DonePrefix(id))
    ensures !StartsWith(Completed(id, rest, now), InProgressPrefix(id))
    ensures !StartsWith(Completed(id, rest, now), PendingPrefix(id))
  {
    var c := Completed(id, rest, now);
    assert c[3] == 'x';
    assert c[..|DonePrefix(id)|] == DonePrefix(id);
  }

  /** Rewriting a line twice is rewriting it once. */
  lemma RewriteLineIdempotent(line: string, id: string, now: string)
    ensures RewriteLine(RewriteLine(line, id, now), id, now) == RewriteLine(line, id, now)
  {
    if StartsWith(line, InProgressPrefix(id)) {
      CompletedIsFinal(id, Rest(line, InProgressPrefix(id), "started:"), now);
    } else if StartsWith(line, PendingPrefix(id)) {
      CompletedIsFinal(id, Rest(line, PendingPrefix(id), "created:"), now);
    }
  }

  function RewriteAll(lines: seq<string>, id: string, now: string): (r: seq<string>)
    ensures |r| == |lines|
    ensures forall i :: 0 <= i < |lines| ==> r[i] == RewriteLine(lines[i], id, now)
  {
    seq(|lines|, i requires 0 <= i < |lines| => RewriteLine(lines[i], id, now))
  }

  /** A second pass over the rewritten lines changes none of them. */
  lemma RewriteAllIdempotent(lines: seq<string>, id: string, now: string)
    ensures RewriteAll(RewriteAll(lines, id, now), id, now) == RewriteAll(lines, id, now)
  {
    forall i | 0 <= i < |lines|
      ensures RewriteLine(RewriteLine(lines[i], id, now), id, now) == RewriteLine(lines[i], id, now)
    {
      RewriteLineIdempotent(lines[i], id, now);
    }
  }

  /** The `for` loop over `lines`, overwriting each entry in place. */
  method RewriteLines(lines: array<string>, id: string, now: string)
    modifies lines
    ensures lines[..] == RewriteAll(old(lines[..]), id, now)
  {
    MapLines(lines, line => RewriteLine(line, id, now));
  }

  /** Overwrites every entry of `lines` by its image under `f`. */
  method MapLines(lines: array<string>, f: string -> string)
    modifies lines
    ensures forall k :: 0 <= k < lines.Length ==> lines[k] == f(old(lines[k]))
  {
    for i := 0 to lines.Length
      invariant forall k :: 0 <= k < i ==> lines[k] == f(old(lines[k]))
      invariant forall k :: i <= k < lines.Length ==> lines[k] == old(lines[k])
    {
      lines[i] := f(lines[i]);
    }
  }

  /* --------------------------------------------- splitting and joining */

  /** `text.split('\n')`. */
  function Split(text: string): (r: seq<string>)
    ensures |r| >= 1
    ensures forall i, k :: 0 <= i < |r| && 0 <= k < |r[i]| ==> r[i][k] != '\n'
    decreases |text|
  {
    if text == [] then [""]
    else if text[0] == '\n' then [""] + Split(text[1..])
    else
      var rest := Split(text[1..]);
      [[text[0]] + rest[0]] + rest[1..]
  }

  /** `lines.join('\n')`. */
  function Join(lines: seq<string>): string
    decreases |lines|
  {
    if lines == [] then ""
    else if |lines| == 1 then lines[0]
    else lines[0] + "\n" + Join(lines[1..])
  }

  /** Joining the split text gives the text back. */
  lemma {:induction false} JoinSplit(text: string)
    ensures Join(Split(text)) == text
    decreases |text|
  {
    if text != [] {
      JoinSplit(text[1..]);
      var rest := Split(text[1..]);
      if text[0] == '\n' {
        assert [""] + rest == [""] + rest;
        assert Join([""] + rest) == "" + "\n" + Join(rest);
      } else {
        assert Join(rest) == rest[0] + (if |rest| == 1 then "" else "\n" + Join(rest[1..]));
        var r := [[text[0]] + rest[0]] + rest[1..];
        assert r[1..] == rest[1..];
        assert Join(r) == [text[0]] + rest[0] + (if |rest| == 1 then "" else "\n" + Join(rest[1..]));
      }
    }
  }

  /** Splitting lines that hold no newline gives them back. */
  lemma {:induction false} SplitJoin(lines: seq<string>)
    requires |lines| >= 1
    requires forall i, k :: 0 <= i < |lines| && 0 <= k < |lines[i]| ==> lines[i][k] != '\n'
    ensures Split(Join(lines)) == lines
    decreases |lines|, |lines[0]|
  {
    if |lines| == 1 {
      SplitLine(lines[0]);
    } else {
      SplitJoin(lines[1..]);
      SplitPrefix(lines[0], Join(lines[1..]));
      assert lines == [lines[0]] + lines[1..];
    }
  }

  lemma {:induction false} SplitLine(line: string)
    requires forall k :: 0 <= k < |line| ==> line[k] != '\n'
    ensures Split(line) == [line]
    decreases |line|
  {
    if line != [] {
      SplitLine(line[1..]);
      assert [line[0]] + line[1..] == line;
    }
  }

  lemma {:induction false} SplitPrefix(line: string, tail: string)
    requires forall k :: 0 <= k < |line| ==> line[k] != '\n'
    ensures Split(line + "\n" + tail) == [line] + Split(tail)
    decreases |line|
  {
    if line == [] {
      assert line + "\n" + tail == "\n" + tail;
      assert ("\n" + tail)[1..] == tail;
    } else {
      assert (line + "\n" + tail)[1..] == line[1..] + "\n" + tail;
      SplitPrefix(line[1..], tail);
      assert [line[0]] + line[1..] == line;
    }
  }

  /* ---------------------------------------------------------- header */

  const Header: string := "Last Updated:"

  /** The first position where `Header` starts, at or after `i`. */
  function HeaderAt(text: string, i: nat): (r: Option<nat>)
    requires i <= |text|
    ensures r.Some? ==> i <= r.value && r.value + |Header| <= |text| && StartsWith(text[r.value..], Header)
    ensures r.Some? ==> forall k :: i <= k < r.value ==> !StartsWith(text[k..], Header)
    ensures r.None? ==> forall k :: i <= k <= |text| ==> !StartsWith(text[k..], Header)
    decreases |text| - i
  {
    if StartsWith(text[i..], Header) then Some(i)
    else if i == |text| then None
    else HeaderAt(text, i + 1)
  }

  /** Where `.*` stops: the first line terminator at or after `j`. */
  function LineEnd(text: string, j: nat): (e: nat)
    requires j <= |text|
    ensures j <= e <= |text|
    ensures forall k :: j <= k < e ==> !IsLineTerminator(text[k])
    ensures e == |text| || IsLineTerminator(text[e])
    decreases |text| - j
  {
    if j == |text| || IsLineTerminator(text[j]) then j else LineEnd(text, j + 1)
  }

  /** `text.replace(/(Last Updated:\s*)(.*)/, pfx + now)`: at the first
      header, the blanks after it are kept and the rest of that line becomes
      `now`; a text without the header is unchanged. */
  function UpdateHeader(text: string, now: string): (r: string)
    ensures HeaderAt(text, 0).None? ==> r == text
  {
    match HeaderAt(text, 0)
    case None => text
    case Some(i) =>
      var p := SkipJsSpace(text, i + |Header|);
      text[..p] + now + text[LineEnd(text, p)..]
  }

  /** Only the rest of the header's line changes: everything up to the end
      of the blanks after the first header, and everything from that line's
      end, is kept. */
  lemma UpdateHeaderKeeps(text: string, now: string) returns (p: nat, e: nat)
    requires HeaderAt(text, 0).Some?
    ensures HeaderAt(text, 0).value + |Header| <= p <= e <= |text|
    ensures forall k :: HeaderAt(text, 0).value + |Header| <= k < p ==> IsJsSpace(text[k])
    ensures forall k :: p <= k < e ==> !IsLineTerminator(text[k])
    ensures e == |text| || IsLineTerminator(text[e])
    ensures UpdateHeader(text, now) == text[..p] + now + text[e..]
  {
    var i := HeaderAt(text, 0).value;
    p := SkipJsSpace(text, i + |Header|);
    e := LineEnd(text, p);
  }

  /** Stamping the header again with the same time changes nothing, when the
      time is not empty, holds no line terminator and does not start with a
      blank. */
  lemma UpdateHeaderIdempotent(text: string, now: string)
    requires |now| > 0 && !IsJsSpace(now[0])
    requires forall k :: 0 <= k < |now| ==> !IsLineTerminator(now[k])
    ensures UpdateHeader(UpdateHeader(text, now), now) == UpdateHeader(text, now)
  {
    if HeaderAt(text, 0).Some? {
      var i := HeaderAt(text, 0).value;
      var p := SkipJsSpace(text, i + |Header|);
      var e := LineEnd(text, p);
      StampedAgain(text, now, i, p, e);
    }
  }

  /** The stamped text `t` has its header, its blanks and its line end where
      the stamp put them, so stamping `t` rebuilds `t`. */
  lemma StampedAgain(text: string, now: string, i: nat, p: nat, e: nat)
    requires |now| > 0 && !IsJsSpace(now[0])
    requires forall k :: 0 <= k < |now| ==> !IsLineTerminator(now[k])
    requires HeaderAt(text, 0) == Some(i)
    requires p == SkipJsSpace(text, i + |Header|) && e == LineEnd(text, p)
    ensures UpdateHeader(text[..p] + now + text[e..], now) == text[..p] + now + text[e..]
  {
    var t := text[..p] + now + text[e..];
    var q := p + |now|;
    Spliced(text, now, p, e);
    HeaderKept(text, t, i, p);
    StampedBlanks(text, t, now, i + |Header|, p);
    StampedLine(text, t, now, p, e);
    StampAt(t, now, i, p, q);
  }

  /** Stamping a text whose header, blanks and line end are known. */
  lemma StampAt(t: string, now: string, i: nat, p: nat, e: nat)
    requires HeaderAt(t, 0) == Some(i)
    requires p == SkipJsSpace(t, i + |Header|) && e == LineEnd(t, p)
    ensures UpdateHeader(t, now) == t[..p] + now + t[e..]
  {
  }

  /** `t` is `a` with `a[p..e]` replaced by `b`. */
  lemma Spliced<T>(a: seq<T>, b: seq<T>, p: nat, e: nat)
    requires p <= e <= |a|
    ensures |a[..p] + b + a[e..]| == p + |b| + (|a| - e)
    ensures (a[..p] + b + a[e..])[..p] == a[..p]
    ensures (a[..p] + b + a[e..])[p + |b|..] == a[e..]
    ensures forall k :: 0 <= k < |b| ==> (a[..p] + b + a[e..])[p + k] == b[k]
    ensures a[..p] + b + (a[..p] + b + a[e..])[p + |b|..] == a[..p] + b + a[e..]
  {
    var t := a[..p] + b + a[e..];
    assert t[p + |b|..] == a[e..];
  }

  /** The blanks after the header are where they were, and the stamp ends them. */
  lemma StampedBlanks(text: string, t: string, now: string, j: nat, p: nat)
    requires j <= p <= |text| && p < |t| && t[..p] == text[..p]
    requires forall k :: j <= k < p ==> IsJsSpace(text[k])
    requires |now| > 0 && !IsJsSpace(now[0]) && t[p] == now[0]
    ensures SkipJsSpace(t, j) == p
  {
    forall k | j <= k < p
      ensures IsJsSpace(t[k])
    {
      assert t[k] == t[..p][k] == text[..p][k];
    }
    SkipStops(t, j, p);
  }

  /** The stamped line ends right after the stamp. */
  lemma StampedLine(text: string, t: string, now: string, p: nat, e: nat)
    requires p <= e <= |text|
    requires t == text[..p] + now + text[e..]
    requires forall k :: 0 <= k < |now| ==> !IsLineTerminator(now[k])
    requires e == |text| || IsLineTerminator(text[e])
    ensures LineEnd(t, p) == p + |now|
  {
    Spliced(text, now, p, e);
    forall k | p <= k < p + |now|
      ensures !IsLineTerminator(t[k])
    {
      assert t[p + (k - p)] == now[k - p];
    }
    if e < |text| {
      assert t[p + |now|..][0] == text[e..][0];
    }
    LineEndStops(t, p, p + |now|);
  }

  /** A text that agrees with `text` up to `p`, past the end of its first
      header, has its first header at the same place. */
  lemma HeaderKept(text: string, t: string, i: nat, p: nat)
    requires HeaderAt(text, 0) == Some(i) && i + |Header| <= p <= |text| && p <= |t|
    requires t[..p] == text[..p]
    ensures HeaderAt(t, 0) == Some(i)
  {
    assert t[i..][..|Header|] == t[..p][i..i + |Header|] == text[..p][i..i + |Header|] == text[i..][..|Header|];
    forall k | 0 <= k < i
      ensures !StartsWith(t[k..], Header)
    {
      assert !StartsWith(text[k..], Header);
      assert t[k..][..|Header|] == t[..p][k..k + |Header|];
      assert text[k..][..|Header|] == text[..p][k..k + |Header|];
    }
    HeaderFirst(t, 0, i);
  }

  lemma {:induction false} HeaderFirst(t: string, j: nat, i: nat)
    requires j <= i && i + |Header| <= |t| && StartsWith(t[i..], Header)
    requires forall k :: j <= k < i ==> !StartsWith(t[k..], Header)
    ensures HeaderAt(t, j) == Some(i)
    decreases i - j
  {
    if j < i {
      HeaderFirst(t, j + 1, i);
    }
  }

  lemma {:induction false} SkipStops(t: string, j: nat, p: nat)
    requires j <= p <= |t|
    requires forall k :: j <= k < p ==> IsJsSpace(t[k])
    requires p == |t| || !IsJsSpace(t[p])
    ensures SkipJsSpace(t, j) == p
    decreases p - j
  {
    if j < p {
      SkipStops(t, j + 1, p);
    }
  }

  lemma {:induction false} LineEndStops(t: string, j: nat, e: nat)
    requires j <= e <= |t|
    requires forall k :: j <= k < e ==> !IsLineTerminator(t[k])
    requires e == |t| || IsLineTerminator(t[e])
    ensures LineEnd(t, j) == e
    decreases e - j
  {
    if j < e {
      LineEndStops(t, j + 1, e);
    }
  }

  /* ------------------------------------------------------------- run */

  datatype Outcome =
    | UsageError
    | InvalidTaskId
    | FileNotFound
    | Updated(text: string)

  /** The new file contents for a valid task id. */
  function NewContents(text: string, id: string, now: string): string
  {
    UpdateHeader(Join(RewriteAll(Split(text), id, now)), now)
  }

  /** The script: `task` is the `--task` argument, `file` the contents of
      TODO_TASKLIST.md when it exists, `now` the ISO time. */
  method Run(task: Option<string>, file: Option<string>, now: string) returns (out: Outcome)
    ensures task.None? || task.value == "" <==> out == UsageError
    ensures out == InvalidTaskId <==> task.Some? && task.value != "" && !ValidTaskId(task.value)
    ensures out == FileNotFound <==> task.Some? && ValidTaskId(task.value) && file.None?
    ensures out.Updated? <==> task.Some? && ValidTaskId(task.value) && file.Some?
    ensures out.Updated? ==> out.text == NewContents(file.value, task.value, now)
  {
    if task.None? || task.value == "" {
      return UsageError;
    }
    var id := task.value;
    if !ValidTaskId(id) {
      return InvalidTaskId;
    }
    if file.None? {
      return FileNotFound;
    }
    var lines := Split(file.value);
    var a := new string[|lines|](i requires 0 <= i < |lines| => lines[i]);
    assert a[..] == lines;
    RewriteLines(a, id, now);
    var text := Join(a[..]);
    text := UpdateHeader(text, now);
    return Updated(text);
  }
}

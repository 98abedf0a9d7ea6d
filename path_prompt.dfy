/**
 * The input filter of `Editor::ask_user_for_path` (src/editor/mod.rs): the
 * line that asks for a file name when Ctrl+S is pressed on a buffer with no
 * path. It reads events until Enter or Esc.
 */
module PathPrompt {
  import opened Wrappers
  import opened Events

  /** Chars the prompt ignores. */
  predicate IsRejectedPathChar(c: char)
  {
    c == '<' || c == '>' || c == ':' || c == '"' || c == '|' || c == '?' || c == '*'
  }

  /** Bytes of one char in UTF-8. */
  function CharUtf8Len(c: char): (n: nat)
    ensures 1 <= n <= 4
  {
    if c as int < 0x80 then 1
    else if c as int < 0x800 then 2
    else if c as int < 0x1_0000 then 3
    else 4
  }

  /** `String::len`: the number of bytes of the UTF-8 encoding. */
  function Utf8Len(s: string): (n: nat)
    ensures |s| <= n <= 4 * |s|
  {
    if s == [] then 0 else Utf8Len(s[..|s| - 1]) + CharUtf8Len(s[|s| - 1])
  }

  /** The events that end the prompt. */
  predicate Ends(e: Event)
  {
    e == KeyPressed(Key.Enter) || e == KeyPressed(Key.Esc)
  }

  /** Index of the first Enter or Esc, or `|events|` when there is none. */
  function FirstEnd(events: seq<Event>): (k: nat)
    ensures k <= |events|
    ensures k < |events| ==> Ends(events[k])
    ensures forall i :: 0 <= i < k ==> !Ends(events[i])
  {
    if events == [] then 0
    else if Ends(events[0]) then 0
    else 1 + FirstEnd(events[1..])
  }

  /** What the prompt keeps between events: the typed text and the terminal size. */
  datatype Prompt = Prompt(path: string, cols: nat, rows: nat)

  /**
   * One event that does not end the prompt: a char is kept if it is allowed
   * and the text so far plus 7 bytes is under the width; Backspace drops the
   * last char of a non-empty text; a resize is recorded by the terminal; any
   * other event is ignored.
   */
  function Step(p: Prompt, e: Event): (q: Prompt)
    requires !Ends(e)
    ensures e.KeyPressed? && e.key.Char? ==>
              q.path == (if Utf8Len(p.path) + 7 < p.cols && !IsRejectedPathChar(e.key.c)
                         then p.path + [e.key.c] else p.path)
    ensures e == KeyPressed(Key.Backspace) ==> q.path == (if p.path != [] then p.path[..|p.path| - 1] else p.path)
    ensures e.WindowResized? ==> q == p.(cols := e.cols, rows := e.rows)
    ensures !e.WindowResized? ==> q.cols == p.cols && q.rows == p.rows
    ensures !(e.KeyPressed? && (e.key.Char? || e.key.Backspace?)) ==> q.path == p.path
  {
    match e
    case KeyPressed(k) =>
      (match k
       case Char(c) =>
         if Utf8Len(p.path) + 7 < p.cols && !IsRejectedPathChar(c) then p.(path := p.path + [c]) else p
       case Backspace =>
         if Utf8Len(p.path) > 0 then p.(path := p.path[..|p.path| - 1]) else p
       case _ => p)
    case WindowResized(c, r) => p.(cols := c, rows := r)
    case _ => p
  }

  /** The prompt's state when the first Enter or Esc arrives; Esc clears the text. */
  function Run(p: Prompt, events: seq<Event>): (q: Prompt)
    requires FirstEnd(events) < |events|
    ensures events[FirstEnd(events)] == KeyPressed(Key.Esc) ==> q.path == []
    decreases |events|
  {
    if Ends(events[0]) then
      if events[0] == KeyPressed(Key.Esc) then p.(path := []) else p
    else
      Run(Step(p, events[0]), events[1..])
  }

  /** An empty text means no path was chosen. */
  function Outcome(p: Prompt): (r: Option<string>)
    ensures r.None? <==> p.path == []
    ensures r.Some? ==> r.value == p.path
  {
    if p.path == [] then None else Some(p.path)
  }

  /** The prompt can run without the source panicking: it draws on the second line from the bottom. */
  predicate CanPrompt(rows: nat, events: seq<Event>)
  {
    && rows >= 2
    && FirstEnd(events) < |events|
    && forall i :: 0 <= i < FirstEnd(events) && events[i].WindowResized? ==> events[i].rows >= 2
  }

  /** The chosen path never holds a rejected char. */
  lemma {:induction false} RunRejectsChars(p: Prompt, events: seq<Event>)
    requires FirstEnd(events) < |events|
    requires forall i :: 0 <= i < |p.path| ==> !IsRejectedPathChar(p.path[i])
    ensures forall i :: 0 <= i < |Run(p, events).path| ==> !IsRejectedPathChar(Run(p, events).path[i])
    decreases |events|
  {
    if !Ends(events[0]) {
      RunRejectsChars(Step(p, events[0]), events[1..]);
    }
  }

  /** Esc, whatever was typed before it, chooses no path. */
  lemma {:induction false} EscChoosesNothing(p: Prompt, events: seq<Event>)
    requires FirstEnd(events) < |events| && events[FirstEnd(events)] == KeyPressed(Key.Esc)
    ensures Outcome(Run(p, events)) == None
    decreases |events|
  {
    if !Ends(events[0]) {
      EscChoosesNothing(Step(p, events[0]), events[1..]);
    }
  }

  /** Without a resize before the end, the prompt ends with the size it started with. */
  lemma {:induction false} RunKeepsSizeWithoutResize(p: Prompt, events: seq<Event>)
    requires FirstEnd(events) < |events|
    requires forall i :: 0 <= i < FirstEnd(events) ==> !events[i].WindowResized?
    ensures Run(p, events).cols == p.cols && Run(p, events).rows == p.rows
    decreases |events|
  {
    if !Ends(events[0]) {
      assert FirstEnd(events[1..]) == FirstEnd(events) - 1;
      RunKeepsSizeWithoutResize(Step(p, events[0]), events[1..]);
    }
  }

  /**
   * Without a resize, the length guard keeps the typed text at least 3
   * bytes short of the width (a char adds at most 4 bytes past the guard).
   */
  lemma {:induction false} RunFitsWidth(p: Prompt, events: seq<Event>)
    requires FirstEnd(events) < |events|
    requires forall i :: 0 <= i < FirstEnd(events) ==> !events[i].WindowResized?
    requires p.path == [] || Utf8Len(p.path) + 3 < p.cols
    ensures Run(p, events).path == [] || Utf8Len(Run(p, events).path) + 3 < p.cols
    decreases |events|
  {
    if !Ends(events[0]) {
      var q := Step(p, events[0]);
      if q.path != [] && q.path != p.path && p.path != [] {
        Utf8LenPrefix(p.path);
      }
      assert FirstEnd(events[1..]) == FirstEnd(events) - 1;
      RunFitsWidth(q, events[1..]);
    }
  }

  lemma Utf8LenPrefix(s: string)
    requires s != []
    ensures Utf8Len(s[..|s| - 1]) < Utf8Len(s)
  {
  }
}

/** The serializer of `lib/stream/export/PrintTextree.js`: it turns the
    start/text/end/comment/message event stream into indented Textree (Jade
    like) text. The printer keeps a stack of open element names, a
    `stillOpen` flag (the last start tag's line is not terminated yet) and an
    output buffer that is pushed downstream in chunks once it grows past
    `flushLength`.

    `Render` is a reference rendering with no buffer at all; the printer's
    operations are proved to append exactly its text to the output, so the
    buffering never changes what is written. */
module PrintTextree {
  import opened Strings
  import opened Seqs

  /** `indentSpaces`. */
  const IndentSpaces: nat := 2

  /** `flushLength`: the buffer is pushed once it is longer than this. */
  const FlushLength: nat := 128

  /** An attribute value: a string, or an array printed joined with blanks. */
  datatype AttrValue = Str(s: string) | Words(words: seq<string>)

  /** The events the serializer reads. A bare string or `Buffer` in the stream
      is handled as `Text`; `Unknown` is any other event type, carried with
      its `JSON.stringify` text. An absent `name`, `level` or `message` is the
      empty string, and absent attributes the empty list. */
  datatype Event =
    | Start(name: string, attributes: seq<(string, AttrValue)>)
    | Text(text: string)
    | End
    | Comment(value: string)
    | Message(level: string, message: string)
    | Domain
    | Unknown(json: string)

  /** The printer state: chunks already pushed downstream, the buffer, the
      names of the open elements and whether the last tag line is open. */
  datatype Printer = Printer(pushed: seq<string>, buffer: string, elementNames: seq<string>, stillOpen: bool)

  const Initial := Printer([], "", [], false)

  /** The chunks written one after the other. */
  function Concat(chunks: seq<string>): string {
    if chunks == [] then "" else chunks[0] + Concat(chunks[1..])
  }

  lemma {:induction false} ConcatTwo(a: string, b: string)
    ensures Concat([a]) == a
    ensures Concat([a, b]) == a + b
  {
    assert [a][1..] == [];
    assert [a, b][1..] == [b];
    assert [b][1..] == [];
  }

  lemma {:induction false} ConcatAppend(a: seq<string>, b: seq<string>)
    ensures Concat(a + b) == Concat(a) + Concat(b)
  {
    if a == [] {
      assert a + b == b;
    } else {
      assert (a + b)[1..] == a[1..] + b;
      ConcatAppend(a[1..], b);
    }
  }

  /** Everything written so far: the pushed chunks, then the buffer. */
  function Output(p: Printer): string {
    Concat(p.pushed) + p.buffer
  }

  /** The buffer never exceeds `flushLength` and no pushed chunk is empty. */
  predicate Healthy(p: Printer) {
    && |p.buffer| <= FlushLength
    && forall i :: 0 <= i < |p.pushed| ==> p.pushed[i] != ""
  }

  ////////////////////////////////////////////////////////////////////////////
  // print, printLN, printIndent, flushBuffer, ensureNotStillOpen

  /** `flushBuffer`: pushes a non-empty buffer as one chunk. */
  function FlushBuffer(p: Printer): (r: Printer)
    ensures Output(r) == Output(p)
    ensures r.buffer == ""
    ensures p.buffer != "" ==> r.pushed == p.pushed + [p.buffer]
    ensures p.buffer == "" ==> r == p
    ensures r.elementNames == p.elementNames && r.stillOpen == p.stillOpen
    ensures Healthy(p) ==> Healthy(r)
  {
    if |p.buffer| > 0 then
      ConcatAppend(p.pushed, [p.buffer]);
      assert Concat([p.buffer]) == p.buffer + Concat([]);
      p.(pushed := p.pushed + [p.buffer], buffer := "")
    else p
  }

  /** `print`: appends to the buffer, pushing it once it is longer than
      `flushLength`. */
  function Print(p: Printer, t: string): (r: Printer)
    ensures Output(r) == Output(p) + t
    ensures r.elementNames == p.elementNames && r.stillOpen == p.stillOpen
    ensures |p.buffer + t| > FlushLength ==> r.buffer == "" && r.pushed == p.pushed + [p.buffer + t]
    ensures |p.buffer + t| <= FlushLength ==> r.buffer == p.buffer + t && r.pushed == p.pushed
    ensures Healthy(p) ==> Healthy(r)
  {
    var b := p.buffer + t;
    if |b| > FlushLength then FlushBuffer(p.(buffer := b)) else p.(buffer := b)
  }

  /** `printLN(text)`: the text and a newline. */
  function PrintLN(p: Printer, t: string): (r: Printer)
    ensures Output(r) == Output(p) + t + "\n"
    ensures r.elementNames == p.elementNames && r.stillOpen == p.stillOpen
    ensures Healthy(p) ==> Healthy(r)
  {
    Print(p, t + "\n")
  }

  /** The indentation of nesting level `level`. */
  function Indent(level: nat): (s: string)
    ensures |s| == level * IndentSpaces
    ensures forall i :: 0 <= i < |s| ==> s[i] == ' '
  {
    Spaces(level * IndentSpaces)
  }

  /** `printIndent(level)`: `level * indentSpaces` blanks. */
  function PrintIndent(p: Printer, level: nat): (r: Printer)
    ensures Output(r) == Output(p) + Indent(level)
    ensures r.elementNames == p.elementNames && r.stillOpen == p.stillOpen
    ensures Healthy(p) ==> Healthy(r)
  {
    Print(p, Indent(level))
  }

  /** What `ensureNotStillOpen` writes: the newline ending an open tag line. */
  function CloseText(stillOpen: bool): string {
    if stillOpen then "\n" else ""
  }

  /** `ensureNotStillOpen`: terminates an open tag line, once. */
  function EnsureNotStillOpen(p: Printer): (r: Printer)
    ensures !r.stillOpen
    ensures Output(r) == Output(p) + (if p.stillOpen then "\n" else "")
    ensures r.elementNames == p.elementNames
    ensures Healthy(p) ==> Healthy(r)
  {
    if p.stillOpen then PrintLN(p, "").(stillOpen := false) else p
  }

  /** A second `ensureNotStillOpen` writes nothing. */
  lemma {:induction false} EnsureNotStillOpenIdempotent(p: Printer)
    ensures EnsureNotStillOpen(EnsureNotStillOpen(p)) == EnsureNotStillOpen(p)
  {
  }

  ////////////////////////////////////////////////////////////////////////////
  // The reference layout

  /** `s.replace(/->/g, "- >")`: every arrow, scanning left to right. */
  function EscapeArrows(s: string): string {
    if |s| >= 2 && s[0] == '-' && s[1] == '>' then "- >" + EscapeArrows(s[2..])
    else if s == [] then []
    else [s[0]] + EscapeArrows(s[1..])
  }

  /** `s` contains `->`. */
  predicate HasArrow(s: string) {
    exists i :: 0 <= i < |s| - 1 && s[i] == '-' && s[i + 1] == '>'
  }

  /** The first character survives the escaping. */
  lemma {:induction false} EscapeArrowsFirst(s: string)
    requires s != []
    ensures EscapeArrows(s) != [] && EscapeArrows(s)[0] == s[0]
  {
  }

  /** No escaped comment contains `->`. */
  lemma {:induction false} EscapeArrowsRemovesArrows(s: string)
    ensures !HasArrow(EscapeArrows(s))
    decreases |s|
  {
    if |s| >= 2 && s[0] == '-' && s[1] == '>' {
      var rest := EscapeArrows(s[2..]);
      EscapeArrowsRemovesArrows(s[2..]);
      var r := "- >" + rest;
      forall i | 0 <= i < |r| - 1 ensures !(r[i] == '-' && r[i + 1] == '>') {
        if i >= 3 {
          assert r[i] == rest[i - 3] && r[i + 1] == rest[i - 2];
        }
      }
    } else if s != [] {
      var rest := EscapeArrows(s[1..]);
      EscapeArrowsRemovesArrows(s[1..]);
      var r := [s[0]] + rest;
      if s[1..] != [] {
        EscapeArrowsFirst(s[1..]);
      }
      forall i | 0 <= i < |r| - 1 ensures !(r[i] == '-' && r[i + 1] == '>') {
        if i >= 1 {
          assert r[i] == rest[i - 1] && r[i + 1] == rest[i];
        }
      }
    }
  }

  /** A comment without arrows is printed as it is. */
  lemma {:induction false} EscapeArrowsNoArrow(s: string)
    requires !HasArrow(s)
    ensures EscapeArrows(s) == s
    decreases |s|
  {
    if s != [] {
      EscapeArrowsNoArrow(s[1..]);
      assert s == [s[0]] + s[1..];
    }
  }

  /** A comment line at nesting level `level`. */
  function CommentLine(level: nat, comment: string): string {
    Indent(level) + "// " + EscapeArrows(comment) + "\n"
  }

  /** One indented line per segment of a multi-line text. */
  function TextLines(lines: seq<string>, level: nat): string {
    if lines == [] then "" else Indent(level) + lines[0] + "\n" + TextLines(lines[1..], level)
  }

  /** The text of an attribute value. */
  function AttrText(v: AttrValue): string {
    match v
    case Str(s) => s
    case Words(ws) => Join(ws, ' ')
  }

  /** The value the loop leaves in `id` or `_class`: the last attribute of
      that name, the empty string when there is none. */
  function LastValue(attrs: seq<(string, AttrValue)>, key: string): string {
    if attrs == [] then ""
    else if attrs[|attrs| - 1].0 == key then AttrText(attrs[|attrs| - 1].1)
    else LastValue(attrs[..|attrs| - 1], key)
  }

  /** An attribute goes on its own line when its value contains `.` or its
      name contains `:`. */
  predicate IsWhole(a: (string, AttrValue)) {
    '.' in AttrText(a.1) || ':' in a.0
  }

  predicate IsInline(a: (string, AttrValue)) {
    a.0 != "id" && a.0 != "class" && !IsWhole(a)
  }

  predicate IsWholeAttr(a: (string, AttrValue)) {
    a.0 != "id" && a.0 != "class" && IsWhole(a)
  }

  /** `inlineAttrs` and `wholeAttrs` split the attributes other than `id`
      and `class` between them. */
  lemma {:induction false} AttributesPartition(attrs: seq<(string, AttrValue)>)
    ensures forall a :: a in attrs && a.0 != "id" && a.0 != "class" ==>
      (a in Filter(attrs, IsInline) <==> a !in Filter(attrs, IsWholeAttr))
    ensures forall a :: a in Filter(attrs, IsInline) || a in Filter(attrs, IsWholeAttr) ==>
      a in attrs && a.0 != "id" && a.0 != "class"
  {
  }

  /** The inline attributes as `.k=v` after the tag name. */
  function InlineText(attrs: seq<(string, AttrValue)>): string {
    if attrs == [] then "" else "." + attrs[0].0 + "=" + AttrText(attrs[0].1) + InlineText(attrs[1..])
  }

  /** The whole attributes, one `.k = v` line each. */
  function WholeLines(attrs: seq<(string, AttrValue)>, level: nat): string {
    if attrs == [] then ""
    else Indent(level) + "." + attrs[0].0 + " = " + AttrText(attrs[0].1) + "\n" + WholeLines(attrs[1..], level)
  }

  /** The tag line of a start event up to its inline attributes. */
  function TagText(name: string, attrs: seq<(string, AttrValue)>): string {
    var id := LastValue(attrs, "id");
    var cls := LastValue(attrs, "class");
    name
      + (if id != "" then "#" + id else "")
      + (if cls != "" then "." + cls else "")
      + InlineText(Filter(attrs, IsInline))
  }

  /** `event.name || "div"`. */
  function ElementName(name: string): string {
    if name == "" then "div" else name
  }

  /** A start tag: its line, left open unless whole attributes follow it on
      lines of their own and a blank line. */
  function RenderStart(depth: nat, stillOpen: bool, name: string, attrs: seq<(string, AttrValue)>): (string, bool) {
    var whole := Filter(attrs, IsWholeAttr);
    var head := CloseText(stillOpen) + Indent(depth) + TagText(ElementName(name), attrs);
    if whole == [] then (head, true)
    else (head + "\n" + WholeLines(whole, depth + 1) + "\n", false)
  }

  /** A text: a block of indented lines after `.` when it spans lines,
      otherwise after the open tag, or on a `|` line of its own. */
  function RenderText(depth: nat, stillOpen: bool, t: string): (string, bool) {
    if '\n' in t then (".\n" + TextLines(Split(t, '\n'), depth + 1), stillOpen)
    else if stillOpen then (" " + t + "\n", false)
    else (Indent(depth + 1) + "| " + t + "\n", false)
  }

  /** The unbuffered rendering of one event at nesting depth `depth`: the
      text it writes and whether a tag line is left open. */
  function Render(depth: nat, stillOpen: bool, ev: Event): (string, bool) {
    match ev
    case Start(name, attrs) => RenderStart(depth, stillOpen, name, attrs)
    case Text(t) => RenderText(depth, stillOpen, t)
    case End =>
      (CloseText(stillOpen), false)
    case Comment(v) =>
      (CloseText(stillOpen) + CommentLine(depth, v), false)
    case Message(level, message) =>
      (CloseText(stillOpen) + CommentLine(depth, "Textree " + level + " message: " + message), false)
    case Domain =>
      ("", stillOpen)
    case Unknown(json) =>
      (CloseText(stillOpen) + CommentLine(depth, "Textree unknown event: " + json), false)
  }

  /** Drops the first `n` characters of every line. */
  function Unindent(lines: seq<string>, n: nat): seq<string> {
    if lines == [] then [] else [if |lines[0]| >= n then lines[0][n..] else lines[0]] + Unindent(lines[1..], n)
  }

  /** Reads a text block back: its newline-terminated lines, with `level`
      indentation removed, joined by newlines. */
  function ReadBlock(block: string, level: nat): string {
    var lines := Split(block, '\n');
    Join(Unindent(lines[..|lines| - 1], level * IndentSpaces), '\n')
  }

  /** The indented lines of a text block split back into the lines, each
      behind its indentation, and an empty rest after the last newline. */
  lemma {:induction false} TextLinesSplit(lines: seq<string>, level: nat)
    requires forall i :: 0 <= i < |lines| ==> '\n' !in lines[i]
    ensures var ps := Split(TextLines(lines, level), '\n');
      && |ps| == |lines| + 1 && ps[|lines|] == ""
      && Unindent(ps[..|lines|], level * IndentSpaces) == lines
  {
    if lines == [] {
      SplitNoSeparator("", '\n');
    } else {
      var x := Indent(level) + lines[0];
      var y := TextLines(lines[1..], level);
      assert '\n' !in x by {
        assert forall i :: 0 <= i < |Indent(level)| ==> Indent(level)[i] == ' ';
        assert '\n' !in lines[0];
      }
      assert TextLines(lines, level) == x + ['\n'] + y;
      SplitAfterPiece(x, '\n', y);
      TextLinesSplit(lines[1..], level);
      var ps := Split(TextLines(lines, level), '\n');
      var rest := Split(y, '\n');
      assert ps == [x] + rest;
      assert ps[..|lines|] == [x] + rest[..|lines| - 1];
      assert x[level * IndentSpaces..] == lines[0];
      assert ([x] + rest[..|lines| - 1])[1..] == rest[..|lines| - 1];
    }
  }

  /** A multi-line text prints `.` on the open line and a block that reads
      back as the text, and leaves the still-open flag as it was. */
  lemma {:induction false} TextBlockRoundTrip(depth: nat, stillOpen: bool, t: string)
    requires '\n' in t
    ensures var out := RenderText(depth, stillOpen, t);
      && |out.0| >= 2 && out.0[..2] == ".\n"
      && ReadBlock(out.0[2..], depth + 1) == t
      && out.1 == stillOpen
  {
    var lines := Split(t, '\n');
    TextLinesSplit(lines, depth + 1);
    JoinSplit(t, '\n');
    var out := RenderText(depth, stillOpen, t).0;
    assert out[2..] == TextLines(lines, depth + 1);
  }

  /** A one-line text prints exactly one line, which ends with the text, and
      closes the open tag line. */
  lemma {:induction false} TextLineSingle(depth: nat, stillOpen: bool, t: string)
    requires '\n' !in t
    ensures var out := RenderText(depth, stillOpen, t).0;
      && |out| > |t|
      && out[|out| - 1] == '\n'
      && '\n' !in out[..|out| - 1]
      && out[|out| - 1 - |t|..|out| - 1] == t
      && !RenderText(depth, stillOpen, t).1
  {
    var out := RenderText(depth, stillOpen, t).0;
    var prefix := if stillOpen then " " else Indent(depth + 1) + "| ";
    assert '\n' !in prefix by {
      var ind := Indent(depth + 1);
      assert forall i :: 0 <= i < |ind| ==> ind[i] == ' ';
    }
    assert out == prefix + t + "\n";
    assert out[..|out| - 1] == prefix + t;
    assert out[|out| - 1 - |t|..|out| - 1] == t;
  }

  /** The element stack after an event: a start pushes its name, an end pops
      the last one (nothing when none is open). */
  function NamesAfter(names: seq<string>, ev: Event): seq<string> {
    match ev
    case Start(name, _) => names + [ElementName(name)]
    case End => if names == [] then [] else names[..|names| - 1]
    case _ => names
  }

  /** No comment line, message included, contains `->` after its `//`. */
  lemma {:induction false} CommentsHaveNoArrow(level: nat, comment: string)
    ensures !HasArrow(EscapeArrows(comment))
    ensures CommentLine(level, comment) == Indent(level) + "// " + EscapeArrows(comment) + "\n"
  {
    EscapeArrowsRemovesArrows(comment);
  }

  ////////////////////////////////////////////////////////////////////////////
  // printText, printComment, the start tag and _transform, as print calls

  /** The print of `ensureNotStillOpen`: `printLN()` when a tag line is open. */
  function CloseCalls(stillOpen: bool): seq<string> {
    if stillOpen then ["\n"] else []
  }

  /** The `forEach` of a multi-line text: `printIndent`, then `printLN(line)`. */
  function LineCalls(lines: seq<string>, level: nat): (r: seq<string>)
    ensures Concat(r) == TextLines(lines, level)
  {
    if lines == [] then []
    else
      var rest := LineCalls(lines[1..], level);
      assert Concat([Indent(level), lines[0] + "\n"] + rest) == Indent(level) + (lines[0] + "\n" + Concat(rest)) by {
        ConcatAppend([Indent(level), lines[0] + "\n"], rest);
      }
      [Indent(level), lines[0] + "\n"] + rest
  }

  /** `printText(text)` at nesting depth `depth`. */
  function TextCalls(depth: nat, stillOpen: bool, text: string): (r: (seq<string>, bool))
    ensures Concat(r.0) == RenderText(depth, stillOpen, text).0
    ensures r.1 == RenderText(depth, stillOpen, text).1
  {
    if '\n' in text then
      var lines := LineCalls(Split(text, '\n'), depth + 1);
      ConcatAppend([".\n"], lines);
      ConcatTwo(".\n", "");
      ([".\n"] + lines, stillOpen)
    else if stillOpen then
      ConcatTwo(" " + text + "\n", "");
      ([" " + text + "\n"], false)
    else
      ConcatTwo(Indent(depth + 1), "| " + text + "\n");
      ([Indent(depth + 1), "| " + text + "\n"], false)
  }

  /** `printComment(comment)` at nesting depth `depth`. */
  function CommentCalls(depth: nat, stillOpen: bool, comment: string): (r: seq<string>)
    ensures Concat(r) == CloseText(stillOpen) + CommentLine(depth, comment)
  {
    var line := "// " + EscapeArrows(comment) + "\n";
    ConcatAppend(CloseCalls(stillOpen), [Indent(depth), line]);
    ConcatTwo(Indent(depth), line);
    ConcatTwo("\n", "");
    CloseCalls(stillOpen) + [Indent(depth), line]
  }

  /** The `for (attr in inlineAttrs)` loop. */
  function InlineCalls(attrs: seq<(string, AttrValue)>): (r: seq<string>)
    ensures Concat(r) == InlineText(attrs)
  {
    if attrs == [] then [] else ["." + attrs[0].0 + "=" + AttrText(attrs[0].1)] + InlineCalls(attrs[1..])
  }

  /** The `for (attr in wholeAttrs)` loop. */
  function WholeCalls(attrs: seq<(string, AttrValue)>, level: nat): (r: seq<string>)
    ensures Concat(r) == WholeLines(attrs, level)
  {
    if attrs == [] then []
    else
      var rest := WholeCalls(attrs[1..], level);
      var line := "." + attrs[0].0 + " = " + AttrText(attrs[0].1) + "\n";
      assert Concat([Indent(level), line] + rest) == Indent(level) + (line + Concat(rest)) by {
        ConcatAppend([Indent(level), line], rest);
      }
      [Indent(level), line] + rest
  }

  /** The tag name, `#id`, `.class` and the inline attributes. */
  function TagCalls(name: string, attrs: seq<(string, AttrValue)>): (r: seq<string>)
    ensures Concat(r) == TagText(name, attrs)
  {
    var id := LastValue(attrs, "id");
    var cls := LastValue(attrs, "class");
    var idCalls := if id != "" then ["#" + id] else [];
    var clsCalls := if cls != "" then ["." + cls] else [];
    var inline := InlineCalls(Filter(attrs, IsInline));
    ConcatAppend([name] + idCalls, clsCalls);
    ConcatAppend([name], idCalls);
    ConcatAppend([name] + idCalls + clsCalls, inline);
    assert Concat(idCalls) == (if id != "" then "#" + id else "");
    assert Concat(clsCalls) == (if cls != "" then "." + cls else "");
    [name] + idCalls + clsCalls + inline
  }

  /** The start tag line up to its inline attributes, after closing an
      open line. */
  function HeadCalls(depth: nat, stillOpen: bool, name: string, attrs: seq<(string, AttrValue)>): (r: seq<string>)
    ensures Concat(r) == CloseText(stillOpen) + Indent(depth) + TagText(name, attrs)
  {
    ConcatAppend(CloseCalls(stillOpen), [Indent(depth)]);
    ConcatAppend(CloseCalls(stillOpen) + [Indent(depth)], TagCalls(name, attrs));
    ConcatTwo(Indent(depth), "");
    ConcatTwo("\n", "");
    CloseCalls(stillOpen) + [Indent(depth)] + TagCalls(name, attrs)
  }

  /** The lines of the whole attributes, after closing the tag line, and the
      blank line after them. */
  function WholeBlockCalls(whole: seq<(string, AttrValue)>, level: nat): (r: seq<string>)
    ensures Concat(r) == "\n" + WholeLines(whole, level) + "\n"
  {
    ConcatAppend(["\n"], WholeCalls(whole, level));
    ConcatAppend(["\n"] + WholeCalls(whole, level), ["\n"]);
    ConcatTwo("\n", "");
    ["\n"] + WholeCalls(whole, level) + ["\n"]
  }

  /** The `start` case of `_transform` at nesting depth `depth`. */
  function StartCalls(depth: nat, stillOpen: bool, name: string, attrs: seq<(string, AttrValue)>): (r: (seq<string>, bool))
    ensures Concat(r.0) == RenderStart(depth, stillOpen, name, attrs).0
    ensures r.1 == RenderStart(depth, stillOpen, name, attrs).1
  {
    var head := HeadCalls(depth, stillOpen, ElementName(name), attrs);
    var whole := Filter(attrs, IsWholeAttr);
    if whole == [] then
      (head, true)
    else
      var block := WholeBlockCalls(whole, depth + 1);
      ConcatAppend(head, block);
      BlockAppend(Concat(head), WholeLines(whole, depth + 1));
      (head + block, false)
  }

  lemma {:induction false} BlockAppend(h: string, w: string)
    ensures h + ("\n" + w + "\n") == h + "\n" + w + "\n"
  {
    AppendAssociative(h, "\n" + w, "\n");
    AppendAssociative(h, "\n", w);
  }

  /** The print calls of one event of `_transform`. */
  function EventCalls(depth: nat, stillOpen: bool, ev: Event): (r: (seq<string>, bool))
    ensures Concat(r.0) == Render(depth, stillOpen, ev).0 && r.1 == Render(depth, stillOpen, ev).1
  {
    match ev
    case Start(name, attrs) => StartCalls(depth, stillOpen, name, attrs)
    case Text(t) => TextCalls(depth, stillOpen, t)
    case End =>
      ConcatTwo("\n", "");
      (CloseCalls(stillOpen), false)
    case Comment(v) =>
      (CommentCalls(depth, stillOpen, v), false)
    case Message(level, message) =>
      (CommentCalls(depth, stillOpen, "Textree " + level + " message: " + message), false)
    case Domain =>
      ([], stillOpen)
    case Unknown(json) =>
      (CommentCalls(depth, stillOpen, "Textree unknown event: " + json), false)
  }

  /** A run of `print` calls. */
  function PrintAll(p: Printer, prints: seq<string>): (r: Printer)
    ensures Output(r) == Output(p) + Concat(prints)
    ensures r.elementNames == p.elementNames && r.stillOpen == p.stillOpen
    ensures Healthy(p) ==> Healthy(r)
    decreases |prints|
  {
    if prints == [] then p else PrintAll(Print(p, prints[0]), prints[1..])
  }

  /** `_transform(event)`: what one event writes and how it moves the
      element stack, as `Render` and `NamesAfter` describe it. */
  function Transform(p: Printer, ev: Event): (r: Printer)
    ensures Output(r) == Output(p) + Render(|p.elementNames|, p.stillOpen, ev).0
    ensures r.stillOpen == Render(|p.elementNames|, p.stillOpen, ev).1
    ensures r.elementNames == NamesAfter(p.elementNames, ev)
    ensures Healthy(p) ==> Healthy(r)
  {
    var (prints, open) := EventCalls(|p.elementNames|, p.stillOpen, ev);
    PrintAll(p, prints).(elementNames := NamesAfter(p.elementNames, ev), stillOpen := open)
  }

  /** An `end` event is `ensureNotStillOpen` after popping the stack. */
  lemma {:induction false} EndIsEnsureNotStillOpen(p: Printer)
    ensures var names := if p.elementNames == [] then [] else p.elementNames[..|p.elementNames| - 1];
      Transform(p, End) == EnsureNotStillOpen(p.(elementNames := names))
  {
    if p.stillOpen {
      var names := if p.elementNames == [] then [] else p.elementNames[..|p.elementNames| - 1];
      assert ["\n"][1..] == [];
      assert "" + "\n" == "\n";
      assert PrintAll(p, ["\n"]) == Print(p, "\n");
      var b := p.buffer + "\n";
      if |b| > FlushLength {
        assert Print(p, "\n") == p.(pushed := p.pushed + [b], buffer := "");
      } else {
        assert Print(p, "\n") == p.(buffer := b);
      }
    }
  }

  /** `_flush`: terminates an open tag line and pushes the rest of the buffer. */
  function Finish(p: Printer): (r: Printer)
    ensures r.buffer == "" && !r.stillOpen
    ensures Output(r) == Output(p) + CloseText(p.stillOpen)
    ensures Concat(r.pushed) == Output(r)
    ensures Healthy(p) ==> Healthy(r)
  {
    FlushBuffer(EnsureNotStillOpen(p))
  }

  ////////////////////////////////////////////////////////////////////////////
  // Whole streams

  /** The printer after a run of events. */
  function TransformAll(p: Printer, evs: seq<Event>): Printer
    decreases |evs|
  {
    if evs == [] then p else TransformAll(Transform(p, evs[0]), evs[1..])
  }

  /** What a run of events writes, and the element stack and open flag it
      leaves. */
  datatype Step = Step(text: string, names: seq<string>, stillOpen: bool)

  /** The unbuffered rendering of a run of events. */
  function RenderAll(names: seq<string>, stillOpen: bool, evs: seq<Event>): Step
    decreases |evs|
  {
    if evs == [] then Step("", names, stillOpen)
    else
      var first := Render(|names|, stillOpen, evs[0]);
      var rest := RenderAll(NamesAfter(names, evs[0]), first.1, evs[1..]);
      Step(first.0 + rest.text, rest.names, rest.stillOpen)
  }

  lemma {:induction false} AppendAssociative(a: string, b: string, c: string)
    ensures a + (b + c) == (a + b) + c
  {
  }

  /** Output completeness: buffering and chunking never change the text; the
      pushed chunks and the buffer spell out the reference rendering. */
  lemma {:induction false} TransformAllOutput(p: Printer, evs: seq<Event>)
    ensures var step := RenderAll(p.elementNames, p.stillOpen, evs);
      && Output(TransformAll(p, evs)) == Output(p) + step.text
      && TransformAll(p, evs).elementNames == step.names
      && TransformAll(p, evs).stillOpen == step.stillOpen
    decreases |evs|
  {
    if evs != [] {
      var q := Transform(p, evs[0]);
      var first := Render(|p.elementNames|, p.stillOpen, evs[0]);
      TransformAllOutput(q, evs[1..]);
      var rest := RenderAll(q.elementNames, q.stillOpen, evs[1..]);
      assert RenderAll(p.elementNames, p.stillOpen, evs) == Step(first.0 + rest.text, rest.names, rest.stillOpen);
      assert TransformAll(p, evs) == TransformAll(q, evs[1..]);
      assert Output(q) == Output(p) + first.0;
      AppendAssociative(Output(p), first.0, rest.text);
    }
  }

  /** Every step keeps the buffer within `flushLength` and pushes no empty chunk. */
  lemma {:induction false} TransformAllHealthy(p: Printer, evs: seq<Event>)
    requires Healthy(p)
    ensures Healthy(TransformAll(p, evs))
    decreases |evs|
  {
    if evs != [] {
      TransformAllHealthy(Transform(p, evs[0]), evs[1..]);
    }
  }

  /** A whole run: every event, then `_flush`. Everything is pushed, and the
      pushed text is the reference rendering closed by a final newline when
      the last tag line was open. */
  lemma {:induction false} SerializeOutput(evs: seq<Event>)
    ensures var r := Finish(TransformAll(Initial, evs));
      var step := RenderAll([], false, evs);
      && r.buffer == ""
      && Concat(r.pushed) == step.text + CloseText(step.stillOpen)
      && Healthy(r)
  {
    TransformAllOutput(Initial, evs);
    TransformAllHealthy(Initial, evs);
    FinishAfter(TransformAll(Initial, evs), RenderAll([], false, evs));
  }

  /** `_flush` after a run that started from nothing pushes exactly the run's
      text and the closing newline it owes. */
  lemma {:induction false} FinishAfter(q: Printer, step: Step)
    requires Output(q) == Output(Initial) + step.text && q.stillOpen == step.stillOpen
    ensures Finish(q).buffer == ""
    ensures Concat(Finish(q).pushed) == step.text + CloseText(step.stillOpen)
  {
    assert Output(Initial) == "";
    assert Output(q) == step.text;
  }

  /** How much an event deepens the element stack. */
  function Delta(ev: Event): int {
    match ev
    case Start(_, _) => 1
    case End => -1
    case _ => 0
  }

  /** Starts minus ends. */
  function Opens(evs: seq<Event>): int {
    if evs == [] then 0 else Delta(evs[0]) + Opens(evs[1..])
  }

  /** When no prefix closes more than `k` of the open elements, the bottom
      `|names| - k` names stay in place and the depth moves by the number of
      unmatched starts. */
  lemma {:induction false} NestingDepth(p: Printer, evs: seq<Event>, k: nat)
    requires k <= |p.elementNames|
    requires forall i :: 0 <= i <= |evs| ==> Opens(evs[..i]) + k >= 0
    ensures |TransformAll(p, evs).elementNames| == |p.elementNames| + Opens(evs)
    ensures p.elementNames[..|p.elementNames| - k] <= TransformAll(p, evs).elementNames
    decreases |evs|
  {
    if evs != [] {
      var q := Transform(p, evs[0]);
      OpensOfTail(evs, k);
      NamesAfterKeepsBottom(p.elementNames, evs[0], k);
      NestingDepth(q, evs[1..], k + Delta(evs[0]));
      assert TransformAll(p, evs) == TransformAll(q, evs[1..]);
    }
  }

  /** The prefix condition of `NestingDepth` carries over to the rest of the
      run, with the first event's delta added to `k`. */
  lemma {:induction false} OpensOfTail(evs: seq<Event>, k: nat)
    requires evs != []
    requires forall i :: 0 <= i <= |evs| ==> Opens(evs[..i]) + k >= 0
    ensures k + Delta(evs[0]) >= 0
    ensures forall i :: 0 <= i <= |evs[1..]| ==> Opens(evs[1..][..i]) + (k + Delta(evs[0])) >= 0
    ensures Opens(evs) == Delta(evs[0]) + Opens(evs[1..])
  {
    assert Opens(evs[..1]) == Delta(evs[0]) by {
      assert evs[..1][1..] == [];
    }
    forall i | 0 <= i <= |evs[1..]| ensures Opens(evs[1..][..i]) + (k + Delta(evs[0])) >= 0 {
      assert evs[..i + 1][1..] == evs[1..][..i];
      assert Opens(evs[..i + 1]) == Delta(evs[0]) + Opens(evs[1..][..i]);
    }
  }

  /** One event changes the stack size by its delta and leaves every name
      below the top `k` in place, when it does not close more than `k`. */
  lemma {:induction false} NamesAfterKeepsBottom(names: seq<string>, ev: Event, k: nat)
    requires k <= |names| && k + Delta(ev) >= 0
    ensures |NamesAfter(names, ev)| == |names| + Delta(ev)
    ensures NamesAfter(names, ev)[..|NamesAfter(names, ev)| - (k + Delta(ev))] == names[..|names| - k]
  {
  }

  /** A well-nested run (no prefix closes more than it opened, as many ends
      as starts) leaves the element stack as it found it. */
  lemma {:induction false} WellNestedRestoresNames(p: Printer, evs: seq<Event>)
    requires forall i :: 0 <= i <= |evs| ==> Opens(evs[..i]) >= 0
    requires Opens(evs) == 0
    ensures TransformAll(p, evs).elementNames == p.elementNames
  {
    NestingDepth(p, evs, 0);
  }

  /** A start tag is printed at the depth before its push; its end pops it. */
  lemma {:induction false} StartThenEnd(p: Printer, name: string)
    ensures var q := Transform(p, Start(name, []));
      && q.elementNames == p.elementNames + [ElementName(name)]
      && Output(q) == Output(p) + CloseText(p.stillOpen) + Indent(|p.elementNames|) + ElementName(name)
      && Transform(q, End).elementNames == p.elementNames
      && Output(Transform(q, End)) == Output(q) + "\n"
  {
    var q := Transform(p, Start(name, []));
    BareStart(|p.elementNames|, p.stillOpen, name);
    assert q.stillOpen;
    assert (p.elementNames + [ElementName(name)])[..|p.elementNames|] == p.elementNames;
  }

  /** A start tag without attributes is its name on an indented line left
      open for text. */
  lemma {:induction false} BareStart(depth: nat, stillOpen: bool, name: string)
    ensures RenderStart(depth, stillOpen, name, []) == (CloseText(stillOpen) + Indent(depth) + ElementName(name), true)
  {
    var attrs: seq<(string, AttrValue)> := [];
    assert Filter(attrs, IsWholeAttr) == [];
    assert Filter(attrs, IsInline) == [];
    assert LastValue(attrs, "id") == "" && LastValue(attrs, "class") == "";
    assert TagText(ElementName(name), attrs) == ElementName(name);
  }

}

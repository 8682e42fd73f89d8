/** The text editor's buffer: offsets against lines and columns, and edits in place (kernel/editor.c:31-117). */
module Editor {

  const MAX_BUF: nat := 32768

  // ---------------------------------------------------------------- lines

  /** The lines of a text; there is always a last one. */
  ghost function Lines(t: string): (ls: seq<string>)
    ensures 0 < |ls|
  {
    if t == [] then [[]]
    else
      var ls, c := Lines(t[..|t| - 1]), t[|t| - 1];
      if c == '\n' then ls + [[]] else ls[..|ls| - 1] + [Last(ls) + [c]]
  }

  ghost function Last(ls: seq<string>): string
    requires 0 < |ls|
  {
    ls[|ls| - 1]
  }

  /** Line and column of an offset. */
  ghost function LineAt(t: string, p: nat): nat
    requires p <= |t|
  {
    |Lines(t[..p])| - 1
  }

  ghost function ColAt(t: string, p: nat): nat
    requires p <= |t|
  {
    |Last(Lines(t[..p]))|
  }

  /** The offset at which line k starts. */
  ghost function Start(ls: seq<string>, k: nat): nat
    requires k <= |ls|
  {
    if k == 0 then 0 else Start(ls, k - 1) + |ls[k - 1]| + 1
  }

  /** Going one character on. */
  lemma NextPosition(t: string, p: nat)
    requires p < |t|
    ensures Lines(t[..p + 1]) ==
            if t[p] == '\n' then Lines(t[..p]) + [[]]
            else Lines(t[..p])[..LineAt(t, p)] + [Last(Lines(t[..p])) + [t[p]]]
    ensures LineAt(t, p + 1) == LineAt(t, p) + (if t[p] == '\n' then 1 else 0)
    ensures ColAt(t, p + 1) == if t[p] == '\n' then 0 else ColAt(t, p) + 1
  {
    assert t[..p + 1][..p] == t[..p];
  }

  /** The lines read so far are the text's first lines, the last of them perhaps cut short. */
  lemma {:induction false} LinesPrefix(t: string, p: nat)
    requires p <= |t|
    ensures var ls, l := Lines(t), LineAt(t, p);
            l < |ls| && Lines(t[..p])[..l] == ls[..l] && Last(Lines(t[..p])) <= ls[l]
    decreases |t| - p
  {
    if p == |t| {
      assert t[..p] == t;
    } else {
      LinesPrefix(t, p + 1);
      NextPosition(t, p);
      hide Lines;
      var part, next, l := Lines(t[..p]), Lines(t[..p + 1]), LineAt(t, p);
      if t[p] == '\n' {
        assert next[..l + 1] == part;
        assert part[..l] == next[..l + 1][..l];
        assert Lines(t)[..l + 1][l] == part[l];
        assert Lines(t)[..l + 1][..l] == Lines(t)[..l];
      } else {
        assert next[..l] == part[..l];
      }
    }
  }

  lemma {:induction false} StartPrefix(a: seq<string>, b: seq<string>, k: nat)
    requires k <= |a| && k <= |b| && a[..k] == b[..k]
    ensures Start(a, k) == Start(b, k)
  {
    if k != 0 {
      assert a[..k][..k - 1] == a[..k - 1] && b[..k][..k - 1] == b[..k - 1] && a[..k][k - 1] == b[..k][k - 1];
      StartPrefix(a, b, k - 1);
    }
  }

  lemma OffsetBreak(part: seq<string>)
    requires 0 < |part|
    ensures Start(part + [[]], |part|) == Start(part, |part| - 1) + |Last(part)| + 1
  {
    hide Start;
    var l, next := |part| - 1, part + [[]];
    assert next[..l] == part[..l];
    StartPrefix(next, part, l);
    StartNext(next, l);
  }

  lemma OffsetChar(part: seq<string>, c: char)
    requires 0 < |part|
    ensures var next := part[..|part| - 1] + [Last(part) + [c]];
            Start(next, |part| - 1) == Start(part, |part| - 1)
  {
    hide Start;
    var l, next := |part| - 1, part[..|part| - 1] + [Last(part) + [c]];
    assert next[..l] == part[..l];
    StartPrefix(next, part, l);
  }

  lemma StartNext(ls: seq<string>, k: nat)
    requires k < |ls|
    ensures Start(ls, k + 1) == Start(ls, k) + |ls[k]| + 1
  {
  }

  lemma {:induction false} PrefixOffset(t: string, p: nat)
    requires p <= |t|
    ensures Start(Lines(t[..p]), LineAt(t, p)) + ColAt(t, p) == p
  {
    if p == 0 {
      assert t[..0] == [];
    } else {
      PrefixOffset(t, p - 1);
      NextOffset(t, p - 1);
    }
  }

  lemma NextOffset(t: string, p: nat)
    requires p < |t|
    ensures Start(Lines(t[..p + 1]), LineAt(t, p + 1)) + ColAt(t, p + 1) ==
            Start(Lines(t[..p]), LineAt(t, p)) + ColAt(t, p) + 1
  {
    hide Lines, Start;
    NextPosition(t, p);
    if t[p] == '\n' { OffsetBreak(Lines(t[..p])); } else { OffsetChar(Lines(t[..p]), t[p]); }
  }

  /** The start of an offset's line plus its column is the offset, and the column lies within the line. */
  lemma OffsetRecovered(t: string, p: nat)
    requires p <= |t|
    ensures LineAt(t, p) < |Lines(t)| && ColAt(t, p) <= |Lines(t)[LineAt(t, p)]|
    ensures Start(Lines(t), LineAt(t, p)) + ColAt(t, p) == p
  {
    hide Lines;
    LinesPrefix(t, p);
    PrefixOffset(t, p);
    StartPrefix(Lines(t), Lines(t[..p]), LineAt(t, p));
  }

  lemma {:induction false} StartsGrow(ls: seq<string>, j: nat, k: nat)
    requires j < k <= |ls|
    ensures Start(ls, j) + |ls[j]| < Start(ls, k)
  {
    if j < k - 1 { StartsGrow(ls, j, k - 1); }
  }

  /** Every place in a line is an offset of the text, and has that line and column. */
  lemma PlaceRecovered(t: string, l: nat, c: nat)
    requires l < |Lines(t)| && c <= |Lines(t)[l]|
    ensures var p := Start(Lines(t), l) + c;
            p <= |t| && LineAt(t, p) == l && ColAt(t, p) == c
  {
    hide Lines, Start, LineAt, ColAt;
    var ls, p := Lines(t), Start(Lines(t), l) + c;
    EndOfText(t);
    OffsetRecovered(t, |t|);
    if l < |ls| - 1 { StartsGrow(ls, l, |ls| - 1); }
    OffsetRecovered(t, p);
    var m := LineAt(t, p);
    if l < m { StartsGrow(ls, l, m); }
    if m < l { StartsGrow(ls, m, l); }
  }

  /** Joining the lines gives the text back. */
  lemma {:induction false} LinesJoin(t: string)
    ensures Joined(Lines(t)) == t && forall i :: 0 <= i < |Lines(t)| ==> '\n' !in Lines(t)[i]
  {
    hide Joined;
    if t == [] {
      JoinedOne([]);
    } else {
      var init, c := t[..|t| - 1], t[|t| - 1];
      var ls := Lines(init);
      LinesJoin(init);
      assert t == init + [c];
      if c == '\n' { JoinedBreak(ls); } else { JoinedLonger(ls, c); }
    }
  }

  lemma JoinedOne(line: string)
    ensures Joined([line]) == line
  {
  }

  lemma JoinedBreak(ls: seq<string>)
    requires 0 < |ls|
    ensures Joined(ls + [[]]) == Joined(ls) + ['\n']
  {
    assert (ls + [[]])[..|ls|] == ls;
  }

  lemma JoinedLonger(ls: seq<string>, c: char)
    requires 0 < |ls|
    ensures Joined(ls[..|ls| - 1] + [Last(ls) + [c]]) == Joined(ls) + [c]
  {
    var grown := ls[..|ls| - 1] + [Last(ls) + [c]];
    assert grown[..|ls| - 1] == ls[..|ls| - 1];
  }

  ghost function Joined(ls: seq<string>): string
    requires 0 < |ls|
  {
    if |ls| == 1 then ls[0] else Joined(ls[..|ls| - 1]) + ['\n'] + Last(ls)
  }

  /** A stretch without line breaks from the start of a line on stays in the line; it ends it at a break or at the
      end. */
  lemma {:induction false} StretchInLine(t: string, l: nat, p: nat)
    requires l < |Lines(t)| && Start(Lines(t), l) <= p <= |t|
    requires forall i :: Start(Lines(t), l) <= i < p ==> t[i] != '\n'
    ensures LineAt(t, p) == l && ColAt(t, p) == p - Start(Lines(t), l)
    ensures p == |t| || t[p] == '\n' ==> |Lines(t)[l]| == p - Start(Lines(t), l)
    decreases p
  {
    hide Lines, Start, LineAt, ColAt;
    var s := Start(Lines(t), l);
    if p == s {
      PlaceRecovered(t, l, 0);
    } else {
      StretchInLine(t, l, p - 1);
      NextPosition(t, p - 1);
    }
    LineComplete(t, p);
  }

  /** A line is complete where a break or the end of the text follows. */
  lemma LineComplete(t: string, p: nat)
    requires p <= |t|
    ensures LineAt(t, p) < |Lines(t)|
    ensures p == |t| || t[p] == '\n' ==> |Lines(t)[LineAt(t, p)]| == ColAt(t, p)
  {
    hide Lines;
    LinesPrefix(t, p);
    var ls, part, l := Lines(t), Lines(t[..p]), LineAt(t, p);
    if p == |t| {
      assert t[..p] == t;
    } else if t[p] == '\n' {
      NextPosition(t, p);
      LinesPrefix(t, p + 1);
      assert (part + [[]])[..l + 1] == part;
      assert ls[..l + 1][l] == part[l];
    }
  }

  // ---------------------------------------------------------------- edits on a text

  function Inserted(t: string, k: nat, c: char): string
    requires k <= |t|
  {
    t[..k] + [c] + t[k..]
  }

  function Removed(t: string, k: nat): string
    requires k < |t|
  {
    t[..k] + t[k + 1..]
  }

  /** A text and a cursor in it. */
  datatype Document = Document(text: string, cursor: nat)

  ghost predicate Sound(d: Document) { d.cursor <= |d.text| < MAX_BUF }

  datatype Key = Insert(c: char) | Backspace | Delete | Vertical(delta: int)

  ghost function Clamped(line: int, total: nat): nat
    requires 0 < total
  {
    if line < 0 then 0 else if total <= line then total - 1 else line
  }

  /** Clamping picks the existing line nearest to the one asked for. */
  lemma ClampedNearest(line: int, total: nat, k: nat)
    requires k < total
    ensures Clamped(line, total) < total
    ensures k != Clamped(line, total) ==> Distance(line, Clamped(line, total)) < Distance(line, k)
  {
  }

  function Distance(a: int, b: int): nat { if a < b then b - a else a - b }

  function Min(a: nat, b: nat): nat { if a < b then a else b }

  /** What a key means. */
  ghost function Pressed(d: Document, key: Key): (e: Document)
    requires Sound(d)
    ensures Sound(e)
  {
    match key
    case Insert(c) =>
      if |d.text| + 1 < MAX_BUF then Document(Inserted(d.text, d.cursor, c), d.cursor + 1) else d
    case Backspace => if d.cursor == 0 then d else Document(Removed(d.text, d.cursor - 1), d.cursor - 1)
    case Delete => if d.cursor == |d.text| then d else Document(Removed(d.text, d.cursor), d.cursor)
    case Vertical(delta) => Document(d.text, Moved(d, delta))
  }

  /** The offset a vertical move leads to. */
  ghost function Moved(d: Document, delta: int): (p: nat)
    requires Sound(d)
    ensures p <= |d.text|
  {
    var ls := Lines(d.text);
    var line := Clamped(LineAt(d.text, d.cursor) + delta, |ls|);
    var p := Start(ls, line) + Min(ColAt(d.text, d.cursor), |ls[line]|);
    PlaceRecovered(d.text, line, Min(ColAt(d.text, d.cursor), |ls[line]|));
    p
  }

  /** A vertical move ends on the clamped line, in the column it started from or at the end of a shorter line. */
  lemma MovedPlace(d: Document, delta: int)
    requires Sound(d)
    ensures var p, line := Moved(d, delta), Clamped(LineAt(d.text, d.cursor) + delta, |Lines(d.text)|);
            LineAt(d.text, p) == line && ColAt(d.text, p) == Min(ColAt(d.text, d.cursor), |Lines(d.text)[line]|)
  {
    hide Lines, Start;
    var ls := Lines(d.text);
    var line := Clamped(LineAt(d.text, d.cursor) + delta, |ls|);
    PlaceRecovered(d.text, line, Min(ColAt(d.text, d.cursor), |ls[line]|));
  }

  lemma UndoInsert(t: string, k: nat, c: char)
    requires k <= |t|
    ensures |Inserted(t, k, c)| == |t| + 1 && Removed(Inserted(t, k, c), k) == t && Inserted(t, k, c)[k] == c
  {
    assert Inserted(t, k, c)[..k] == t[..k] && Inserted(t, k, c)[k + 1..] == t[k..];
  }

  /** Backspace undoes an insert that was not refused. */
  lemma BackspaceUndoes(d: Document, c: char)
    requires Sound(d)
    ensures Pressed(Pressed(d, Insert(c)), Backspace) == d <==>
            |d.text| + 1 < MAX_BUF || d.cursor == 0
  {
    if |d.text| + 1 < MAX_BUF {
      UndoInsert(d.text, d.cursor, c);
    }
  }

  /** Delete takes out the character under the cursor, which typing it again puts back, and does nothing at the end. */
  lemma DeleteForward(d: Document)
    requires Sound(d)
    ensures var e := Pressed(d, Delete);
            if d.cursor == |d.text| then e == d
            else e.cursor == d.cursor && Pressed(e, Insert(d.text[d.cursor])) == Document(d.text, d.cursor + 1)
  {
    if d.cursor < |d.text| {
      var t, k := d.text, d.cursor;
      assert Removed(t, k)[..k] == t[..k] && Removed(t, k)[k..] == t[k + 1..];
      assert t[..k] + [t[k]] + t[k + 1..] == t;
    }
  }

  ghost function Run(d: Document, keys: seq<Key>): (e: Document)
    requires Sound(d)
    ensures Sound(e)
  {
    if keys == [] then d else Pressed(Run(d, keys[..|keys| - 1]), keys[|keys| - 1])
  }

  ghost function Typing(s: string): seq<Key> { seq(|s|, i requires 0 <= i < |s| => Insert(s[i])) }

  /** Typing a word that fits puts it in front of the cursor, and the rest of the text stays. */
  lemma {:induction false} Typed(d: Document, s: string)
    requires Sound(d) && |d.text| + |s| < MAX_BUF
    ensures Run(d, Typing(s)) == Document(d.text[..d.cursor] + s + d.text[d.cursor..], d.cursor + |s|)
  {
    if s == [] {
      assert d.text == d.text[..d.cursor] + s + d.text[d.cursor..];
    } else {
      var init, c := s[..|s| - 1], s[|s| - 1];
      Typed(d, init);
      assert Typing(s)[..|s| - 1] == Typing(init);
      var a, b := d.text[..d.cursor], d.text[d.cursor..];
      var e := Document(a + init + b, d.cursor + |init|);
      InsertedBetween(a + init, b, c);
      assert a + s == a + init + [c];
    }
  }

  lemma InsertedBetween(a: string, b: string, c: char)
    ensures Inserted(a + b, |a|, c) == a + [c] + b
  {
    assert (a + b)[..|a|] == a && (a + b)[|a|..] == b;
  }

  // ---------------------------------------------------------------- the editor

  class EditorState {
    const buf: array<char>
    var len: nat
    var cursor: nat
    var dirty: bool
    var quitConfirm: bool

    /** The text ends in front of its terminator, inside the buffer, and the cursor is in it or at its end. */
    ghost predicate Valid()
      reads this, buf
    {
      buf.Length == MAX_BUF && cursor <= len < MAX_BUF && buf[len] == '\0'
    }

    ghost function Content(): (d: Document)
      requires Valid()
      reads this, buf
      ensures Sound(d)
    {
      Document(buf[..len], cursor)
    }

    constructor ()
      ensures Valid() && Content() == Document([], 0) && fresh(buf)
    {
      buf := new char[MAX_BUF](i => '\0');
      len, cursor, dirty, quitConfirm := 0, 0, false, false;
    }

    /** editor_get_line_col. */
    method GetLineCol(pos: nat) returns (line: nat, col: nat)
      requires Valid()
      ensures line == LineAt(buf[..len], Min(pos, len)) && col == ColAt(buf[..len], Min(pos, len))
    {
      hide Lines, LineAt, ColAt;
      ghost var t := buf[..len];
      StartOfText(t);
      line, col := 0, 0;
      var i := 0;
      while i < pos && i < len
        invariant i <= Min(pos, len)
        invariant line == LineAt(t, i) && col == ColAt(t, i)
      {
        NextPosition(t, i);
        if buf[i] == '\n' {
          line, col := line + 1, 0;
        } else {
          col := col + 1;
        }
        i := i + 1;
      }
    }

    /** editor_total_lines. */
    method TotalLines() returns (lines: nat)
      requires Valid()
      ensures lines == |Lines(buf[..len])|
    {
      ghost var t := buf[..len];
      StartOfText(t);
      lines := 1;
      for i := 0 to len
        invariant lines == LineAt(t, i) + 1
      {
        NextPosition(t, i);
        if buf[i] == '\n' { lines := lines + 1; }
      }
      assert t[..len] == t;
    }

    /** editor_line_start. */
    method LineStart(target: int) returns (start: nat)
      requires Valid()
      ensures var ls := Lines(buf[..len]);
              start == if target <= 0 then 0 else if target < |ls| then Start(ls, target) else len
    {
      hide Lines, LineAt, ColAt;
      if target <= 0 { return 0; }
      ghost var t := buf[..len];
      StartOfText(t);
      var line := 0;
      for i := 0 to len
        invariant line == LineAt(t, i) < target
      {
        NextPosition(t, i);
        if buf[i] == '\n' {
          line := line + 1;
          if line == target {
            OffsetRecovered(t, i + 1);
            return i + 1;
          }
        }
      }
      EndOfText(t);
      start := len;
    }

    /** editor_line_end. */
    method LineEnd(start: nat) returns (end: nat)
      requires Valid()
      ensures len < start ==> end == start
      ensures start <= len ==> start <= end <= len && (end == len || buf[end] == '\n')
      ensures forall i :: start <= i < end ==> buf[i] != '\n'
    {
      end := start;
      while end < len && buf[end] != '\n'
        invariant start <= end && (start <= len ==> end <= len) && (len < start ==> end == start)
        invariant forall i :: start <= i < end ==> buf[i] != '\n'
      {
        end := end + 1;
      }
    }

    /** editor_move_vertical. */
    method MoveVertical(delta: int)
      requires Valid()
      modifies this`cursor
      ensures Valid() && Content() == Pressed(old(Content()), Vertical(delta))
    {
      hide Lines, LineAt, ColAt, Start;
      ghost var t := buf[..len];
      ghost var d := Content();
      var line, col := GetLineCol(cursor);
      var total := TotalLines();
      var target := line + delta;
      if target < 0 { target := 0; }
      if target >= total { target := total - 1; }
      assert target == Clamped(line + delta, total);
      var start := LineStart(target);
      StartWithin(t, target);
      var end := LineEnd(start);
      StretchInLine(t, target, end);
      var length := end - start;
      cursor := start + if col < length then col else length;
      assert cursor == Moved(d, delta) by { MovedIs(d, delta, target); }
    }

    /** memmove within the buffer. */
    method Move(to: nat, from: nat, n: nat)
      requires to + n <= buf.Length && from + n <= buf.Length
      modifies buf
      ensures buf[..] == Shifted(old(buf[..]), to, from, n)
    {
      forall i | to <= i < to + n {
        buf[i] := buf[from + (i - to)];
      }
    }

    /** editor_insert_char. */
    method InsertChar(c: char)
      requires Valid()
      modifies this`len, this`cursor, this`dirty, this`quitConfirm, buf
      ensures Valid() && Content() == Pressed(old(Content()), Insert(c))
      ensures old(len) + 1 < MAX_BUF ==> dirty && !quitConfirm
    {
      hide Moved, Inserted, Shifted;
      if len + 1 >= MAX_BUF { return; }
      ghost var b := buf[..];
      InsertInPlace(b, len, cursor, c);
      Move(cursor + 1, cursor, len - cursor);
      buf[cursor] := c;
      cursor := cursor + 1;
      len := len + 1;
      buf[len] := '\0';
      dirty := true;
      quitConfirm := false;
      assert buf[..] == Shifted(b, cursor, cursor - 1, len - cursor)[cursor - 1 := c][len := '\0'];
      assert buf[..len] == buf[..][..len];
      assert old(buf[..len]) == b[..old(len)];
    }

    /** editor_backspace. */
    method EraseBefore()
      requires Valid()
      modifies this`len, this`cursor, this`dirty, this`quitConfirm, buf
      ensures Valid() && Content() == Pressed(old(Content()), Backspace)
      ensures 0 < old(cursor) ==> dirty && !quitConfirm
    {
      hide Moved, Removed, Shifted;
      if cursor == 0 { return; }
      ghost var b := buf[..];
      RemoveInPlace(b, len, cursor - 1);
      Move(cursor - 1, cursor, len - cursor);
      cursor := cursor - 1;
      len := len - 1;
      buf[len] := '\0';
      dirty := true;
      quitConfirm := false;
      assert buf[..] == Shifted(b, cursor, cursor + 1, len - cursor)[len := '\0'];
      assert buf[..len] == buf[..][..len];
      assert old(buf[..len]) == b[..old(len)];
    }

    /** editor_delete. */
    method EraseAfter()
      requires Valid()
      modifies this`len, this`cursor, this`dirty, this`quitConfirm, buf
      ensures Valid() && Content() == Pressed(old(Content()), Delete)
      ensures old(cursor) < old(len) ==> dirty && !quitConfirm
    {
      hide Moved, Removed, Shifted;
      if cursor >= len { return; }
      ghost var b := buf[..];
      RemoveInPlace(b, len, cursor);
      Move(cursor, cursor + 1, len - cursor - 1);
      len := len - 1;
      buf[len] := '\0';
      dirty := true;
      quitConfirm := false;
      assert buf[..] == Shifted(b, cursor, cursor + 1, len - cursor)[len := '\0'];
      assert buf[..len] == buf[..][..len];
      assert old(buf[..len]) == b[..old(len)];
    }

    /** Any run of keys does to the buffer what it means on the text. */
    method Replay(keys: seq<Key>)
      requires Valid()
      modifies this`len, this`cursor, this`dirty, this`quitConfirm, buf
      ensures Valid() && Content() == Run(old(Content()), keys)
    {
      hide Pressed;
      for n := 0 to |keys|
        invariant Valid() && Content() == Run(old(Content()), keys[..n])
      {
        assert keys[..n + 1][..n] == keys[..n];
        match keys[n]
        case Insert(c) => InsertChar(c);
        case Backspace => EraseBefore();
        case Delete => EraseAfter();
        case Vertical(delta) => MoveVertical(delta);
      }
      assert keys[..|keys|] == keys;
    }
  }

  /** What memmove leaves. */
  function Shifted(b: string, to: nat, from: nat, n: nat): (r: string)
    requires to + n <= |b| && from + n <= |b|
    ensures |r| == |b|
  {
    b[..to] + b[from..from + n] + b[to + n..]
  }

  lemma InsertInPlace(b: string, len: nat, k: nat, c: char)
    requires k <= len && len + 1 < |b|
    ensures Shifted(b, k + 1, k, len - k)[k := c][len + 1 := '\0'][..len + 1] == Inserted(b[..len], k, c)
  {
    var r := Shifted(b, k + 1, k, len - k);
    assert r[k + 1..len + 1] == b[k..len];
    assert r[..k] == b[..k];
  }

  lemma RemoveInPlace(b: string, len: nat, k: nat)
    requires k < len < |b|
    ensures Shifted(b, k, k + 1, len - 1 - k)[len - 1 := '\0'][..len - 1] == Removed(b[..len], k)
  {
    var r := Shifted(b, k, k + 1, len - 1 - k);
    assert r[k..len - 1] == b[k + 1..len];
    assert r[..k] == b[..k];
  }

  lemma StartOfText(t: string)
    ensures LineAt(t, 0) == 0 && ColAt(t, 0) == 0
  {
  }

  lemma EndOfText(t: string)
    ensures LineAt(t, |t|) == |Lines(t)| - 1 && ColAt(t, |t|) == |Last(Lines(t))|
  {
    assert t[..|t|] == t;
  }

  lemma StartWithin(t: string, l: nat)
    requires l < |Lines(t)|
    ensures Start(Lines(t), l) <= |t| && Start(Lines(t), 0) == 0
  {
    hide Lines;
    PlaceRecovered(t, l, 0);
  }

  lemma MovedIs(d: Document, delta: int, line: nat)
    requires Sound(d) && line == Clamped(LineAt(d.text, d.cursor) + delta, |Lines(d.text)|)
    ensures Moved(d, delta) == Start(Lines(d.text), line) + Min(ColAt(d.text, d.cursor), |Lines(d.text)[line]|)
  {
  }
}

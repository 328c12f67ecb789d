/** The console's line editor (kernel/console.c). */
module ConsoleEditor {
  import opened Bits

  const INPUT_BUF: nat := 128
  const UINT_LIMIT: nat := 0x1_0000_0000
  const BACKSPACE: nat := 0x100

  const CTRL_D: byte := 4
  const CTRL_H: byte := 8
  const NEWLINE: byte := 10
  const RETURN: byte := 13
  const CTRL_U: byte := 21
  const SPACE: byte := 32
  const DELETE: byte := 127

  // The editor as it is meant
  // -------------------------

  /** Lines given to readers, and the line being typed. */
  datatype Editor = Editor(committed: seq<byte>, pending: seq<byte>) {
    ghost function Text(): seq<byte> {
      committed + pending
    }

    ghost predicate Valid() {
      && |Text()| <= INPUT_BUF
      && (|Text()| == INPUT_BUF ==> pending == [])
      && NEWLINE !in pending && CTRL_D !in pending
    }
  }

  predicate Accepts(length: nat, c: byte) {
    c != CTRL_U && c != CTRL_H && c != DELETE && c != 0 && length < INPUT_BUF
  }

  function Typed(c: byte): byte {
    if c == RETURN then NEWLINE else c
  }

  /** What a keystroke does. */
  ghost function Key(ed: Editor, c: byte): Editor {
    if c == CTRL_U then ed.(pending := [])
    else if c == CTRL_H || c == DELETE then
      if ed.pending == [] then ed else ed.(pending := ed.pending[..|ed.pending| - 1])
    else if !Accepts(|ed.Text()|, c) then ed
    else
      var line := ed.pending + [Typed(c)];
      if Typed(c) == NEWLINE || Typed(c) == CTRL_D || |ed.Text()| + 1 == INPUT_BUF
      then Editor(ed.committed + line, [])
      else ed.(pending := line)
  }

  /** n characters rubbed out on the terminal. */
  ghost function RubOut(n: nat): seq<byte> {
    if n == 0 then [] else RubOut(n - 1) + [CTRL_H, SPACE, CTRL_H]
  }

  /** What a keystroke sends to the terminal. */
  ghost function Echo(ed: Editor, c: byte): seq<byte> {
    if c == CTRL_U then RubOut(|ed.pending|)
    else if c == CTRL_H || c == DELETE then RubOut(if ed.pending == [] then 0 else 1)
    else if !Accepts(|ed.Text()|, c) then []
    else [Typed(c)]
  }

  /** The state after a sequence of keystrokes. */
  ghost function Keys(ks: seq<byte>): Editor {
    if ks == [] then Editor([], []) else Key(Keys(ks[..|ks| - 1]), ks[|ks| - 1])
  }

  ghost function Echoes(ks: seq<byte>): seq<byte> {
    if ks == [] then [] else Echoes(ks[..|ks| - 1]) + Echo(Keys(ks[..|ks| - 1]), ks[|ks| - 1])
  }

  /** n times backspace, space, backspace. */
  lemma {:induction false} RubOutIs(n: nat)
    ensures |RubOut(n)| == 3 * n
    ensures forall i :: 0 <= i < 3 * n ==> RubOut(n)[i] == if i % 3 == 1 then 32 else 8
  {
    if n > 0 {
      RubOutIs(n - 1);
    }
  }

  /** The keys, by their codes: 21 kills the line; 8 and 127 take its last byte
      and rub it out once, or do nothing on an empty line; 0 and, once 128
      bytes are held, every other key do nothing; every other byte goes on the
      line, 13 as 10, and is echoed; 10, 4 and the 128th byte end the line. */
  lemma KeyIs(ed: Editor, c: byte)
    requires ed.Valid()
    ensures c == 21 ==> Key(ed, c) == Editor(ed.committed, []) && Echo(ed, c) == RubOut(|ed.pending|)
    ensures (c == 8 || c == 127) && ed.pending == [] ==> Key(ed, c) == ed && Echo(ed, c) == []
    ensures (c == 8 || c == 127) && ed.pending != [] ==>
      && |Key(ed, c).pending| == |ed.pending| - 1
      && ed == Editor(Key(ed, c).committed, Key(ed, c).pending + [ed.pending[|ed.pending| - 1]])
      && Echo(ed, c) == [8, 32, 8]
    ensures c == 0 || (c !in {8, 21, 127} && |ed.committed| + |ed.pending| >= 128) ==>
      Key(ed, c) == ed && Echo(ed, c) == []
    ensures c !in {0, 8, 21, 127} && |ed.committed| + |ed.pending| < 128 ==>
      var t := if c == 13 then 10 else c;
      && Echo(ed, c) == [t]
      && Key(ed, c) == if t == 10 || t == 4 || |ed.committed| + |ed.pending| == 127
                       then Editor(ed.committed + (ed.pending + [t]), []) else Editor(ed.committed, ed.pending + [t])
  {
    RubOutIs(1);
    if c == 8 || c == 127 {
      assert Echo(ed, c) == if ed.pending == [] then [] else [8, 32, 8];
    }
  }

  /** A character that does not end the line, and then backspace or delete. */
  lemma BackspaceUndoes(ks: seq<byte>, c: byte, b: byte)
    requires c !in {0, 4, 8, 10, 13, 21, 127} && (b == 8 || b == 127) && |Keys(ks).Text()| < 127
    ensures Keys(ks + [c, b]) == Keys(ks)
    ensures Echoes(ks + [c, b]) == Echoes(ks) + [c, 8, 32, 8]
  {
    hide Key, Echo, Keys, Echoes, Editor.Valid, RubOut;
    assert ks + [c, b] == ks + [c] + [b];
    NextKey(ks, c);
    NextKey(ks + [c], b);
    KeysValid(ks, 0);
    KeysValid(ks + [c], 0);
    var ed := Keys(ks);
    KeyIs(ed, c);
    KeyIs(Keys(ks + [c]), b);
    LastOff(Keys(ks + [c, b]).pending, ed.pending, c);
    assert Echoes(ks) + [c] + [8, 32, 8] == Echoes(ks) + [c, 8, 32, 8];
  }

  lemma NextKey(ks: seq<byte>, c: byte)
    ensures Keys(ks + [c]) == Key(Keys(ks), c) && Echoes(ks + [c]) == Echoes(ks) + Echo(Keys(ks), c)
  {
    hide Key, Echo;
    assert (ks + [c])[..|ks|] == ks;
  }

  lemma LastOff(s: seq<byte>, t: seq<byte>, c: byte)
    ensures s + [c] == t + [c] ==> s == t
  {
    assert (s + [c])[..|s|] == s && (t + [c])[..|t|] == t;
  }

  lemma KeyKeeps(ed: Editor, c: byte)
    requires ed.Valid()
    ensures Key(ed, c).Valid()
    ensures ed.committed <= Key(ed, c).committed
    ensures c == CTRL_U ==> Key(ed, c).pending == []
  {
    var next := Key(ed, c);
    if Accepts(|ed.Text()|, c) {
      assert ed.pending + [Typed(c)] == next.pending || next.pending == [];
    }
  }

  /** After any keystrokes the text fits the buffer, the line being typed holds
      no newline and no control-d, and what was committed stays. */
  lemma {:induction false} KeysValid(ks: seq<byte>, n: nat)
    requires n <= |ks|
    ensures Keys(ks).Valid() && Keys(ks[..n]).committed <= Keys(ks).committed
  {
    if ks == [] {
    } else if n == |ks| {
      assert ks[..n] == ks;
      KeysValid(ks[..|ks| - 1], 0);
      KeyKeeps(Keys(ks[..|ks| - 1]), ks[|ks| - 1]);
    } else {
      KeysValid(ks[..|ks| - 1], n);
      assert ks[..|ks| - 1][..n] == ks[..n];
      KeyKeeps(Keys(ks[..|ks| - 1]), ks[|ks| - 1]);
    }
  }

  /** Nothing takes the committed bytes away: when they fill the buffer, the
      console answers no key any more. */
  lemma FullForGood(ed: Editor, c: byte)
    requires ed.Valid() && |ed.committed| == INPUT_BUF
    ensures Key(ed, c) == ed && Echo(ed, c) == []
  {
    assert |ed.Text()| == |ed.committed| + |ed.pending|;
  }

  // The terminal
  // ------------

  /** A terminal on which every byte but a backspace takes up one cell. A real
      one treats tabs, newlines and escape sequences in its own way. */
  datatype Screen = Screen(cells: seq<byte>, cursor: nat) {
    /** A backspace moves the cursor left; anything else goes to the cell under it. */
    ghost function Put(x: byte): Screen
      requires cursor <= |cells|
    {
      if x == CTRL_H then Screen(cells, if cursor > 0 then cursor - 1 else 0)
      else if cursor < |cells| then Screen(cells[cursor := x], cursor + 1)
      else Screen(cells + [x], cursor + 1)
    }

    /** The screen shows the text before the cursor and blanks behind it. */
    ghost predicate Shows(text: seq<byte>) {
      && cursor == |text| <= |cells| && cells[..cursor] == text
      && forall i :: cursor <= i < |cells| ==> cells[i] == SPACE
    }
  }

  ghost function After(scr: Screen, out: seq<byte>): (r: Screen)
    requires scr.cursor <= |scr.cells|
    ensures r.cursor <= |r.cells|
  {
    if out == [] then scr else After(scr, out[..|out| - 1]).Put(out[|out| - 1])
  }

  lemma {:induction false} AfterAppend(scr: Screen, a: seq<byte>, b: seq<byte>)
    requires scr.cursor <= |scr.cells|
    ensures After(scr, a + b) == After(After(scr, a), b)
  {
    if b == [] {
      assert a + b == a;
    } else {
      assert (a + b)[..|a + b| - 1] == a + b[..|b| - 1];
      AfterAppend(scr, a, b[..|b| - 1]);
    }
  }

  lemma RubOutOne(scr: Screen, text: seq<byte>)
    requires scr.Shows(text) && text != []
    ensures After(scr, [CTRL_H, SPACE, CTRL_H]).Shows(text[..|text| - 1])
  {
    var out := [CTRL_H, SPACE, CTRL_H];
    assert out[..2] == [CTRL_H, SPACE] && out[..2][..1] == [CTRL_H] && out[..1][..0] == [];
    assert After(scr, [CTRL_H]) == scr.Put(CTRL_H);
    assert After(scr, [CTRL_H, SPACE]) == scr.Put(CTRL_H).Put(SPACE);
    assert After(scr, out) == scr.Put(CTRL_H).Put(SPACE).Put(CTRL_H);
  }

  lemma {:induction false} RubOutShows(scr: Screen, text: seq<byte>, n: nat)
    requires scr.Shows(text) && n <= |text|
    ensures After(scr, RubOut(n)).Shows(text[..|text| - n])
  {
    if n == 0 {
      assert text[..|text|] == text;
    } else {
      RubOutShows(scr, text, n - 1);
      AfterAppend(scr, RubOut(n - 1), [CTRL_H, SPACE, CTRL_H]);
      var rest := text[..|text| - (n - 1)];
      RubOutOne(After(scr, RubOut(n - 1)), rest);
      assert rest[..|rest| - 1] == text[..|text| - n];
    }
  }

  lemma TypeShows(scr: Screen, text: seq<byte>, x: byte)
    requires scr.Shows(text) && x != CTRL_H
    ensures After(scr, [x]).Shows(text + [x])
  {
    assert [x][..0] == [];
    assert After(scr, [x]) == scr.Put(x);
  }

  lemma EchoShows(scr: Screen, ed: Editor, c: byte)
    requires scr.Shows(ed.Text()) && ed.Valid()
    ensures After(scr, Echo(ed, c)).Shows(Key(ed, c).Text())
  {
    var text, next := ed.Text(), Key(ed, c).Text();
    if c == CTRL_U {
      RubOutShows(scr, text, |ed.pending|);
      assert text[..|text| - |ed.pending|] == next;
    } else if c == CTRL_H || c == DELETE {
      var n := if ed.pending == [] then 0 else 1;
      RubOutShows(scr, text, n);
      assert text[..|text| - n] == next;
    } else if Accepts(|text|, c) {
      TypeShows(scr, text, Typed(c));
      assert text + [Typed(c)] == next;
    }
  }

  /** After any keystrokes such a terminal shows exactly the text in the buffer. */
  lemma {:induction false} ScreenShowsText(ks: seq<byte>)
    ensures After(Screen([], 0), Echoes(ks)).Shows(Keys(ks).Text())
  {
    if ks != [] {
      var before := ks[..|ks| - 1];
      ScreenShowsText(before);
      KeysValid(before, 0);
      AfterAppend(Screen([], 0), Echoes(before), Echo(Keys(before), ks[|ks| - 1]));
      EchoShows(After(Screen([], 0), Echoes(before)), Keys(before), ks[|ks| - 1]);
    }
  }

  // The editor as it is
  // -------------------

  class Console {
    const buf: array<byte>
    var r: nat
    var w: nat
    var e: nat
    /** What consputc has sent to the UART. */
    var out: seq<byte>

    ghost predicate Shape()
      reads this
    {
      && buf.Length == INPUT_BUF && r <= w <= e <= r + INPUT_BUF < UINT_LIMIT
    }

    /** The bytes of the ring from index i up to j. */
    ghost function Bytes(i: nat, j: nat): (s: seq<byte>)
      requires buf.Length == INPUT_BUF && i <= j
      reads buf
      ensures |s| == j - i
      ensures forall k :: 0 <= k < j - i ==> s[k] == buf[(i + k) % INPUT_BUF]
    {
      seq(j - i, k requires 0 <= k < j - i reads buf => buf[(i + k) % INPUT_BUF])
    }

    ghost function Abs(): Editor
      requires Shape()
      reads this, buf
    {
      Editor(Bytes(r, w), Bytes(w, e))
    }

    ghost predicate Valid()
      reads this, buf
    {
      Shape() && Abs().Valid()
    }

    constructor ()
      ensures Valid() && Abs() == Keys([]) && out == []
    {
      buf := new byte[INPUT_BUF](_ => 0);
      r, w, e, out := 0, 0, 0, [];
    }

    /** Sends one character to the terminal, or rubs one out. */
    method ConsPutc(c: nat)
      requires c < 256 || c == BACKSPACE
      modifies this`out
      ensures out == old(out) + if c == BACKSPACE then RubOut(1) else [c]
    {
      if c == BACKSPACE {
        out := out + [CTRL_H] + [SPACE] + [CTRL_H];
        assert RubOut(1) == RubOut(0) + [CTRL_H, SPACE, CTRL_H];
      } else {
        out := out + [c];
      }
    }

    /** The loop of kill-line. */
    method KillLine()
      requires Valid()
      modifies this`e, this`out
      ensures Shape() && e == w
      ensures out == old(out) + RubOut(|old(Abs()).pending|)
    {
      ghost var n := 0;
      ghost var pending := Abs().pending;
      while e != w && buf[(e - 1) % INPUT_BUF] != NEWLINE
        invariant Shape() && n <= |pending| && e == old(e) - n
        invariant e > w ==> pending[e - 1 - w] == buf[(e - 1) % INPUT_BUF]
        invariant out == old(out) + RubOut(n)
        decreases e
      {
        e := e - 1;
        ConsPutc(BACKSPACE);
        n := n + 1;
        RubOutNext(old(out), n);
      }
    }

    /** Stores a character behind the text. */
    method Push(t: byte)
      requires Shape() && e - r < INPUT_BUF
      modifies this`e, buf
      ensures Shape() && e == old(e) + 1 && buf[..] == old(buf[..])[old(e) % 128 := t]
      ensures Bytes(r, w) == old(Bytes(r, w)) && Bytes(w, e) == old(Bytes(w, e)) + [t]
    {
      OtherCells(r, e);
      buf[e % INPUT_BUF] := t;
      e := e + 1;
    }

    lemma Joined(i: nat, j: nat, k: nat)
      requires buf.Length == INPUT_BUF && i <= j <= k
      ensures Bytes(i, k) == Bytes(i, j) + Bytes(j, k)
    {
    }

    /** Stores a character behind the text, and gives the line to readers when
        it is complete (kernel/console.c:55-60). */
    method Accept(c: byte)
      requires Valid() && Accepts(|Abs().Text()|, c) && e - r < INPUT_BUF
      modifies this, buf
      ensures Valid() && r == old(r) && Abs() == Key(old(Abs()), c) && out == old(out) + Echo(old(Abs()), c)
      ensures var t := if c == 13 then 10 else c;
        && e == old(e) + 1 && buf[..] == old(buf[..])[old(e) % 128 := t] && out == old(out) + [t]
        && w == if t == 10 || t == 4 || e == r + 128 then e else old(w)
    {
      hide Key, Echo, Accepts, Editor.Valid, Console.Bytes;
      ghost var ed := Abs();
      AcceptIs(ed, c);
      KeyKeeps(ed, c);
      var t := if c == RETURN then NEWLINE else c;
      ConsPutc(t);
      Push(t);
      if t == NEWLINE || t == CTRL_D || e == r + INPUT_BUF {
        Joined(r, w, e);
        w := e;
        assert Bytes(w, e) == [];
      }
    }

    /** The input interrupt handler does what the editor does, in the buffer and
        on the terminal. */
    method ConsoleIntr(c: byte)
      requires Valid()
      modifies this, buf
      ensures Valid() && r == old(r) && Abs() == Key(old(Abs()), c) && out == old(out) + Echo(old(Abs()), c)
      ensures c == 21 ==> e == w == old(w) && buf[..] == old(buf[..]) && out == old(out) + RubOut(old(e) - w)
      ensures c == 8 || c == 127 ==>
        && w == old(w) && buf[..] == old(buf[..])
        && e == (if old(e) != w then old(e) - 1 else w)
        && out == old(out) + (if old(e) != w then [8, 32, 8] else [])
      ensures c !in {0, 8, 21, 127} && old(e) - r < 128 ==>
        var t := if c == 13 then 10 else c;
        && e == old(e) + 1 && buf[..] == old(buf[..])[old(e) % 128 := t] && out == old(out) + [t]
        && w == if t == 10 || t == 4 || e == r + 128 then e else old(w)
      ensures c == 0 || (c !in {8, 21, 127} && old(e) - r >= 128) ==>
        e == old(e) && w == old(w) && buf[..] == old(buf[..]) && out == old(out)
    {
      ghost var ed := Abs();
      KeyKeeps(ed, c);
      KeyIs(ed, c);
      if c == CTRL_U {
        KillLine();
        assert Abs() == ed.(pending := []);
      } else if c == CTRL_H || c == DELETE {
        if e != w {
          e := e - 1;
          ConsPutc(BACKSPACE);
          assert Bytes(w, e) == ed.pending[..|ed.pending| - 1];
        }
      } else if c != 0 && e - r < INPUT_BUF {
        Accept(c);
      }
    }
  }

  /** What the editor does with a character it accepts. */
  lemma AcceptIs(ed: Editor, c: byte)
    requires ed.Valid() && Accepts(|ed.Text()|, c)
    ensures var t := if c == RETURN then NEWLINE else c;
      && Echo(ed, c) == [t]
      && Key(ed, c) == if t == NEWLINE || t == CTRL_D || |ed.Text()| + 1 == INPUT_BUF
                       then Editor(ed.committed + (ed.pending + [t]), []) else Editor(ed.committed, ed.pending + [t])
  {
  }

  lemma OtherCells(r: nat, e: nat)
    requires r <= e < r + INPUT_BUF
    ensures forall i: nat :: r <= i < e ==> i % INPUT_BUF != e % INPUT_BUF
  {
  }

  lemma RubOutNext(out: seq<byte>, n: nat)
    requires n > 0
    ensures out + RubOut(n - 1) + RubOut(1) == out + RubOut(n)
  {
    assert RubOut(1) == RubOut(0) + [CTRL_H, SPACE, CTRL_H];
  }
}

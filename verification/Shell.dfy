/** The shell's line editor, and how it takes a command and its argument from the line. */
module Shell {
  import opened Options
  import opened Words
  import opened KfsLayout
  import opened Tokens

  const LINE_SIZE: nat := 128
  const BACKSPACE: byte := 8
  const NEWLINE: byte := 10
  const SPACE: byte := 32

  /** The line buffer, cut at the cursor: the line typed so far, and what the buffer holds
      behind it. */
  datatype Draft = Draft(line: seq<byte>, beyond: seq<byte>, ended: bool) {
    ghost predicate Valid() {
      |line| < LINE_SIZE && |line| + |beyond| == LINE_SIZE
    }

    function Bytes(): seq<byte> {
      line + beyond
    }
  }

  ghost const BLANK: Draft := Draft([], Zeros(LINE_SIZE), false)

  /** One key: a backspace moves the cursor back over a character, without erasing it; a newline
      or the 128th character ends the line; any other character is added. */
  ghost function Press(d: Draft, c: byte): (next: Draft)
    requires d.Valid()
    ensures next.Valid()
  {
    var n := |d.line|;
    if d.ended then d
    else if c == BACKSPACE then
      if n == 0 then d else Draft(d.line[..n - 1], [d.line[n - 1]] + d.beyond, false)
    else if c == NEWLINE || n == LINE_SIZE - 1 then Draft(d.line, [0] + d.beyond[1..], true)
    else Draft(d.line + [c], d.beyond[1..], false)
  }

  ghost function Typed(keys: seq<byte>): (d: Draft)
    ensures d.Valid()
  {
    if keys == [] then BLANK else Press(Typed(keys[..|keys| - 1]), keys[|keys| - 1])
  }

  /** The longest the line ever was while these keys were typed. */
  ghost function Longest(keys: seq<byte>): nat {
    if keys == [] then 0
    else
      var before, now := Longest(keys[..|keys| - 1]), |Typed(keys).line|;
      if now > before then now else before
  }

  /** Position p of the buffer is the NUL that ended the line. */
  ghost predicate Closes(d: Draft, p: nat) {
    d.ended && p == |d.line|
  }

  /** What is not blank in the buffer: everything the cursor ever passed, bar the closing NUL. */
  ghost predicate Marked(d: Draft, longest: nat) {
    |d.line| <= longest &&
    forall p :: 0 <= p < |d.Bytes()| ==> (d.Bytes()[p] != 0 <==> p < longest && !Closes(d, p))
  }

  lemma PressMarks(d: Draft, longest: nat, c: byte)
    requires d.Valid() && Marked(d, longest) && c != 0
    ensures Marked(Press(d, c), if |Press(d, c).line| > longest then |Press(d, c).line| else longest)
  {
    var e, b, n := Press(d, c), d.Bytes(), |d.line|;
    if d.ended || c == BACKSPACE {
      assert e.Bytes() == b;
    } else if c == NEWLINE || n == LINE_SIZE - 1 {
      assert e.Bytes() == b[n := 0];
    } else {
      assert e.Bytes() == b[n := c];
    }
  }

  lemma {:induction false} TypedMarks(keys: seq<byte>)
    requires 0 !in keys
    ensures Marked(Typed(keys), Longest(keys))
  {
    if keys != [] {
      TypedMarks(keys[..|keys| - 1]);
      PressMarks(Typed(keys[..|keys| - 1]), Longest(keys[..|keys| - 1]), keys[|keys| - 1]);
    }
  }

  /** Keys typed after the line has ended do nothing. */
  lemma {:induction false} EndedStays(keys: seq<byte>, more: seq<byte>)
    requires Typed(keys).ended
    ensures Typed(keys + more) == Typed(keys)
  {
    if more == [] {
      assert keys + more == keys;
    } else {
      EndedStays(keys, more[..|more| - 1]);
      assert (keys + more)[..|keys + more| - 1] == keys + more[..|more| - 1];
    }
  }

  /** The loop of the shell that reads one line, over the keys that get_key delivers. */
  method EditLine(chars: array<byte>, keys: seq<byte>) returns (i: nat, ended: bool)
    requires chars.Length == LINE_SIZE
    modifies chars
    ensures i < LINE_SIZE && Typed(keys) == Draft(chars[..i], chars[i..], ended)
  {
    for k := 0 to chars.Length
      invariant forall j :: 0 <= j < k ==> chars[j] == 0
    {
      chars[k] := 0;
    }
    assert chars[..] == Zeros(LINE_SIZE);
    i, ended := 0, false;
    var k := 0;
    while k < |keys| && !ended
      invariant 0 <= k <= |keys| && 0 <= i < LINE_SIZE
      invariant Typed(keys[..k]) == Draft(chars[..i], chars[i..], ended)
    {
      i, ended := Edit(chars, i, keys[k]);
      assert keys[..k + 1][..k] == keys[..k];
      k := k + 1;
    }
    if ended {
      EndedStays(keys[..k], keys[k..]);
    }
    assert keys == keys[..k] + keys[k..] && (k == |keys| ==> keys[..k] == keys);
  }

  /** The body of that loop. */
  method Edit(chars: array<byte>, cursor: nat, c: byte) returns (i: nat, ended: bool)
    requires cursor < LINE_SIZE == chars.Length
    modifies chars
    ensures i < LINE_SIZE
    ensures Draft(chars[..i], chars[i..], ended) == Press(old(Draft(chars[..cursor], chars[cursor..], false)), c)
  {
    i, ended := cursor, false;
    if c == BACKSPACE {
      if i > 0 {
        i := i - 1;
      }
    } else {
      if i >= LINE_SIZE - 1 {
        chars[i] := 0;
        ended := true;
        return;
      }
      chars[i] := c;
      i := i + 1;
      if c == NEWLINE {
        chars[i - 1] := 0;
        i, ended := i - 1, true;
      }
    }
  }

  /** An ended line is what a C string reader finds in the buffer. */
  lemma LineReads(keys: seq<byte>)
    requires 0 !in keys && Typed(keys).ended
    ensures CStr(Typed(keys).Bytes()) == Typed(keys).line
  {
    var d := Typed(keys);
    TypedMarks(keys);
    assert Closes(d, |d.line|);
    assert forall j :: 0 <= j < |d.line| ==> d.line[j] == d.Bytes()[j];
    assert d.beyond[0] == d.Bytes()[|d.line|];
    assert d.Bytes() == d.line + [0] + d.beyond[1..];
    CStrOf(d.line, d.beyond[1..]);
  }

  ghost function FirstWord(t: seq<byte>): seq<byte> {
    t[..Span(t, [SPACE])]
  }

  /** A buffer whose line has been cut at its first space. */
  ghost function CutAtSpace(b: seq<byte>): seq<byte> {
    var k := Span(CStr(b), [SPACE]);
    if k < |CStr(b)| && k < |b| then b[k := 0] else b
  }

  /** Cutting leaves the first word, so that it can be done again. */
  lemma CutLeavesWord(b: seq<byte>)
    requires 0 in b
    ensures 0 in CutAtSpace(b) && CStr(CutAtSpace(b)) == FirstWord(CStr(b))
    ensures FirstWord(FirstWord(CStr(b))) == FirstWord(CStr(b)) && CutAtSpace(CutAtSpace(b)) == CutAtSpace(b)
  {
    var t := CStr(b);
    var k := Span(t, [SPACE]);
    CStrLies(b);
    SpanOf(t[..k], [], [SPACE]);
    assert t[..k] + [] == t[..k];
    if k < |t| {
      assert b[k := 0] == t[..k] + [0] + b[k + 1..];
      CStrOf(t[..k], b[k + 1..]);
      assert b[k := 0][k] == 0;
    } else {
      assert t[..k] == t;
    }
  }

  /** What the tests work on: a line and the word that is compared. */
  ghost predicate Line(b: seq<byte>, word: seq<byte>) {
    0 in b && FirstWord(CStr(b)) == word
  }

  /** CMD_COMP: cut the line in place and compare its first word. */
  method CmdComp(tk: Tokenizer, name: seq<byte>, ghost word: seq<byte>) returns (same: bool)
    requires Line(tk.buf[..], word) && 0 in name
    modifies tk, tk.buf
    ensures tk.buf[..] == CutAtSpace(old(tk.buf[..])) == CutAtSpace(tk.buf[..]) && Line(tk.buf[..], word)
    ensures same <==> word == CStr(name)
  {
    assert tk.buf[0..] == tk.buf[..];
    CutLeavesWord(tk.buf[..]);
    assert [SPACE, 0] == [SPACE] + [0] + [];
    CStrOf([SPACE], []);
    var at := tk.StrTok(Some(0), [SPACE, 0]);
    assert tk.buf[0..] == tk.buf[..];
    var r := StrCmp(tk.buf[at.value..], name);
    same := r == 0;
  }

  /** The first of the names that is the given word, if any. */
  ghost predicate IsFirst(which: Option<nat>, names: seq<seq<byte>>, word: seq<byte>) {
    match which
    case None => forall i :: 0 <= i < |names| ==> CStr(names[i]) != word
    case Some(k) => k < |names| && CStr(names[k]) == word && forall i :: 0 <= i < k ==> CStr(names[i]) != word
  }

  /** The chain of CMD_COMP tests: however many of them cut the line, each compares the same
      first word. */
  method Dispatch(tk: Tokenizer, names: seq<seq<byte>>, ghost word: seq<byte>) returns (which: Option<nat>)
    requires Line(tk.buf[..], word) && names != [] && (forall n :: n in names ==> 0 in n)
    modifies tk, tk.buf
    ensures tk.buf[..] == CutAtSpace(old(tk.buf[..])) && Line(tk.buf[..], word)
    ensures IsFirst(which, names, word)
  {
    ghost var cut := CutAtSpace(tk.buf[..]);
    var k := 0;
    while k < |names|
      invariant 0 <= k <= |names| && Line(tk.buf[..], word) && CutAtSpace(tk.buf[..]) == cut
      invariant k > 0 ==> tk.buf[..] == cut
      invariant forall i :: 0 <= i < k ==> CStr(names[i]) != word
    {
      var same := CmdComp(tk, names[k], word);
      if same {
        return Some(k);
      }
      k := k + 1;
    }
    return None;
  }

  /** The text behind the first word and its space. */
  lemma RestReads(b: seq<byte>, t: seq<byte>, n: nat)
    requires 0 in b && t == CStr(b) && n == |FirstWord(t)| < |t|
    ensures t[n] == SPACE && n < |b| && CStr(CutAtSpace(b)[n + 1..]) == t[n + 1..]
  {
    CStrLies(b);
    CStrTail(b, n + 1);
    assert CutAtSpace(b)[n + 1..] == b[n + 1..];
  }

  /** The bytes behind an ended line without a space. */
  lemma BehindLine(d: Draft, longest: nat, n: nat)
    requires d.Valid() && d.ended && Marked(d, longest) && n == |d.line|
    ensures CStr(d.Bytes()[n + 1..]) == [] <==> longest <= n + 1 || n == LINE_SIZE - 1
  {
    var b := d.Bytes();
    if n + 1 < |b| {
      assert b[n + 1..][0] == b[n + 1] && !Closes(d, n + 1);
    }
  }

  lemma {:induction false} LongestFits(keys: seq<byte>)
    ensures |Typed(keys).line| <= Longest(keys) < LINE_SIZE
  {
    if keys != [] {
      LongestFits(keys[..|keys| - 1]);
    }
  }

  /** What a command finds one character behind its own name: the rest of the typed line when
      there was a space; otherwise nothing, unless a longer draft has left its end there. */
  lemma ArgumentIs(keys: seq<byte>)
    requires 0 !in keys && Typed(keys).ended
    ensures var d := Typed(keys);
            var n := |FirstWord(d.line)|;
            n < |d.Bytes()| &&
            var argument := CStr(CutAtSpace(d.Bytes())[n + 1..]);
            if n < |d.line| then d.line[n] == SPACE && argument == d.line[n + 1..]
            else argument == [] <==> Longest(keys) <= n + 1
  {
    var d := Typed(keys);
    var b, n := d.Bytes(), |FirstWord(d.line)|;
    LineReads(keys);
    TypedMarks(keys);
    LongestFits(keys);
    assert b[|d.line|] == 0 by {
      assert Closes(d, |d.line|);
    }
    if n < |d.line| {
      RestReads(b, d.line, n);
    } else {
      assert CutAtSpace(b) == b;
      BehindLine(d, Longest(keys), n);
    }
  }

  // ----- what the edits mean

  /** The same line, as far as anyone can see. */
  ghost predicate SameLine(d: Draft, e: Draft) {
    d.line == e.line && d.ended == e.ended
  }

  lemma PressSame(d: Draft, e: Draft, c: byte)
    requires d.Valid() && e.Valid() && SameLine(d, e)
    ensures SameLine(Press(d, c), Press(e, c))
  {
  }

  /** What keys do to the line depends on the line alone, not on what is left behind it. */
  lemma {:induction false} MoreSame(a: seq<byte>, b: seq<byte>, more: seq<byte>)
    requires SameLine(Typed(a), Typed(b))
    ensures SameLine(Typed(a + more), Typed(b + more))
  {
    if more == [] {
      assert a + more == a && b + more == b;
    } else {
      var n := |more| - 1;
      MoreSame(a, b, more[..n]);
      PressSame(Typed(a + more[..n]), Typed(b + more[..n]), more[n]);
      assert (a + more)[..|a + more| - 1] == a + more[..n] && (b + more)[..|b + more| - 1] == b + more[..n];
    }
  }

  /** A character and a backspace cancel, whatever is typed before and after. */
  lemma ErasingCancels(keys: seq<byte>, c: byte, more: seq<byte>)
    requires c != BACKSPACE && c != NEWLINE && !Typed(keys).ended && |Typed(keys).line| < LINE_SIZE - 1
    ensures SameLine(Typed(keys + [c, BACKSPACE] + more), Typed(keys + more))
  {
    assert keys + [c, BACKSPACE] == (keys + [c]) + [BACKSPACE];
    TypedStep(keys, c);
    TypedStep(keys + [c], BACKSPACE);
    MoreSame(keys + [c, BACKSPACE], keys, more);
  }

  /** Any other character is added as it is, also where one has been erased. */
  lemma CharacterIsAdded(keys: seq<byte>, c: byte)
    requires c != BACKSPACE && c != NEWLINE && !Typed(keys).ended && |Typed(keys).line| < LINE_SIZE - 1
    ensures !Typed(keys + [c]).ended && Typed(keys + [c]).line == Typed(keys).line + [c]
  {
    TypedStep(keys, c);
  }

  /** A backspace on an empty line does nothing to it. */
  lemma NothingToErase(keys: seq<byte>, more: seq<byte>)
    requires Typed(keys).line == [] && !Typed(keys).ended
    ensures SameLine(Typed(keys + [BACKSPACE] + more), Typed(keys + more))
  {
    TypedStep(keys, BACKSPACE);
    MoreSame(keys + [BACKSPACE], keys, more);
  }

  /** A line is ended by a newline, or by a character when it has 127, and by nothing else; it stays
      as it is then. */
  lemma EndsLine(keys: seq<byte>, c: byte)
    requires !Typed(keys).ended
    ensures Typed(keys + [c]).ended <==> c == NEWLINE || (c != BACKSPACE && |Typed(keys).line| == LINE_SIZE - 1)
    ensures Typed(keys + [c]).ended ==> Typed(keys + [c]).line == Typed(keys).line
  {
    TypedStep(keys, c);
  }

  /** A mistake can be corrected: a, b, backspace, c, newline is the line "ac". */
  lemma Correction()
    ensures var d := Typed([0x61, 0x62, BACKSPACE, 0x63, NEWLINE]); d.ended && d.line == [0x61, 0x63]
  {
    PlainTyping([0x61]);
    ErasingCancels([0x61], 0x62, [0x63, NEWLINE]);
    assert [0x61] + [0x62, BACKSPACE] + [0x63, NEWLINE] == [0x61, 0x62, BACKSPACE, 0x63, NEWLINE];
    assert [0x61] + [0x63, NEWLINE] == [0x61, 0x63] + [NEWLINE];
    CharacterIsAdded([0x61], 0x63);
    assert [0x61] + [0x63] == [0x61, 0x63];
    EndsLine([0x61, 0x63], NEWLINE);
  }

  /** The string at a command's argument pointer, one character behind its name. */
  ghost predicate IsArgument(keys: seq<byte>, n: nat, argument: seq<byte>) {
    var line := Typed(keys).line;
    if n < |line| then line[n] == SPACE && argument == line[n + 1..]
    else argument == [] <==> Longest(keys) <= n + 1
  }

  /** From the keys to the command: a line is edited, the chain of comparisons finds the first name
      that is the first word typed, and the text behind that name is the argument. */
  method ReadCommand(tk: Tokenizer, keys: seq<byte>, names: seq<seq<byte>>) returns (ended: bool, which: Option<nat>)
    requires tk.buf.Length == LINE_SIZE && 0 !in keys && names != [] && (forall n :: n in names ==> 0 in n)
    modifies tk, tk.buf
    ensures ended == Typed(keys).ended && (!ended ==> which.None?)
    ensures ended ==> IsFirst(which, names, FirstWord(Typed(keys).line))
    ensures which.Some? ==>
              var n := |CStr(names[which.value])|;
              n < LINE_SIZE && IsArgument(keys, n, CStr(tk.buf[n + 1..]))
  {
    hide Typed, CutAtSpace, FirstWord, IsArgument, Marked;
    var i;
    which := None;
    i, ended := EditLine(tk.buf, keys);
    if ended {
      ghost var bytes := tk.buf[..];
      assert bytes == tk.buf[..i] + tk.buf[i..] == Typed(keys).Bytes();
      EndedLine(keys);
      ArgumentAt(keys);
      which := Dispatch(tk, names, FirstWord(Typed(keys).line));
      assert tk.buf[..] == CutAtSpace(bytes);
      ghost var n := |FirstWord(Typed(keys).line)|;
      assert tk.buf[n + 1..] == tk.buf[..][n + 1..];
    }
  }

  lemma ArgumentAt(keys: seq<byte>)
    requires 0 !in keys && Typed(keys).ended
    ensures var (b, n) := (Typed(keys).Bytes(), |FirstWord(Typed(keys).line)|);
            n < |b| == LINE_SIZE == |CutAtSpace(b)| && IsArgument(keys, n, CStr(CutAtSpace(b)[n + 1..]))
  {
    ArgumentIs(keys);
  }

  lemma EndedLine(keys: seq<byte>)
    requires 0 !in keys && Typed(keys).ended
    ensures Line(Typed(keys).Bytes(), FirstWord(Typed(keys).line))
  {
    var d := Typed(keys);
    LineReads(keys);
    TypedMarks(keys);
    assert Closes(d, |d.line|);
    assert d.Bytes()[|d.line|] == 0;
  }

  lemma TypedStep(keys: seq<byte>, c: byte)
    ensures Typed(keys + [c]) == Press(Typed(keys), c)
  {
    assert (keys + [c])[..|keys|] == keys;
  }

  ghost predicate Plain(keys: seq<byte>) {
    0 !in keys && BACKSPACE !in keys && NEWLINE !in keys
  }

  lemma {:induction false} PlainTyping(keys: seq<byte>)
    requires Plain(keys) && |keys| < LINE_SIZE
    ensures Typed(keys) == Draft(keys, Zeros(LINE_SIZE - |keys|), false)
  {
    if keys != [] {
      var n := |keys| - 1;
      var typed, c := keys[..n], keys[n];
      assert keys == typed + [c] && c in keys;
      PlainTyping(typed);
      TypedStep(typed, c);
      assert Zeros(LINE_SIZE - n)[1..] == Zeros(LINE_SIZE - n - 1);
    }
  }

  function Backspaces(k: nat): (s: seq<byte>)
    ensures |s| == k
  {
    if k == 0 then [] else Backspaces(k - 1) + [BACKSPACE]
  }

  /** The cursor of e is k characters before that of d; nothing else differs. */
  ghost predicate MovedBack(d: Draft, e: Draft, k: nat) {
    !e.ended && e.Bytes() == d.Bytes() && |e.line| + k == |d.line|
  }

  lemma PressBackspace(d: Draft, e: Draft, k: nat)
    requires e.Valid() && MovedBack(d, e, k) && k < |d.line|
    ensures MovedBack(d, Press(e, BACKSPACE), k + 1)
  {
  }

  lemma {:induction false} Erasing(keys: seq<byte>, k: nat, d: Draft)
    requires d == Typed(keys) && !d.ended && k <= |d.line|
    ensures MovedBack(d, Typed(keys + Backspaces(k)), k)
  {
    if k == 0 {
      assert keys + [] == keys;
    } else {
      var before := keys + Backspaces(k - 1);
      Erasing(keys, k - 1, d);
      PressBackspace(d, Typed(before), k - 1);
      TypedStep(before, BACKSPACE);
      assert keys + Backspaces(k) == before + [BACKSPACE];
    }
  }

  lemma PressNewline(d: Draft, e: Draft, k: nat)
    requires e.Valid() && MovedBack(d, e, k)
    ensures var f := Press(e, NEWLINE);
            f.ended && f.line == d.Bytes()[..|d.line| - k] && f.Bytes() == d.Bytes()[|d.line| - k := 0]
  {
    assert e.line + ([0] + e.beyond[1..]) == e.Bytes()[|e.line| := 0];
  }

  lemma ReadAroundCut(name: seq<byte>, erased: seq<byte>, room: nat)
    requires 0 !in name && 0 !in erased && SPACE !in name && erased != [] && room > 0
    ensures var b := (name + erased + Zeros(room))[|name| := 0];
            CutAtSpace(b) == b && CStr(b[|name| + 1..]) == erased[1..]
  {
    var b, tail := (name + erased + Zeros(room))[|name| := 0], erased[1..] + Zeros(room);
    assert b == name + [0] + tail && b[|name| + 1..] == tail;
    CStrOf(name, tail);
    SpanOf(name, [], [SPACE]);
    assert name + [] == name;
    assert tail == erased[1..] + [0] + Zeros(room)[1..];
    CStrOf(erased[1..], Zeros(room)[1..]);
  }

  /** A command typed with more behind it, all of which is then erased, still gets the erased
      text, bar its first character, as its argument. */
  lemma ErasedTextIsArgument(name: seq<byte>, erased: seq<byte>)
    requires Plain(name) && Plain(erased) && SPACE !in name && erased != [] && |name| + |erased| < LINE_SIZE
    ensures var d := Typed(name + erased + Backspaces(|erased|) + [NEWLINE]);
            d.ended && d.line == name && CStr(CutAtSpace(d.Bytes())[|name| + 1..]) == erased[1..]
  {
    var all, n, room := name + erased, |name|, LINE_SIZE - |name| - |erased|;
    var d := Typed(all);
    PlainTyping(all);
    Erasing(all, |erased|, d);
    PressNewline(d, Typed(all + Backspaces(|erased|)), |erased|);
    TypedStep(all + Backspaces(|erased|), NEWLINE);
    assert d.Bytes()[..n] == name;
    ReadAroundCut(name, erased, room);
  }
}

/** The keyboard driver: an interrupt handler that translates scancodes into a ring of
    256 characters, and a reader that may be interrupted between any two of its steps. */
module Keyboard {
  import opened Options
  import opened Words

  const KBDBUF: nat := 256

  /** The two translation tables; 0, like a code past the end, stands for no character. */
  datatype Keymap = Keymap(plain: string, shifted: string)

  /** The tables, by the rows of the keyboard. */
  const PLAIN_DIGITS: string := "\0\U{1B}1234567890-=\U{8}\t"
  const PLAIN_UPPER: string := "qwertyuiop[]\n\0"
  const PLAIN_HOME: string := "asdfghjkl;'`\0\\"
  const PLAIN_LOWER: string := "zxcvbnm,./\0*\0 \0"
  const SHIFTED_DIGITS: string := "\0\U{1B}!@#$%^&*()_+\U{8}\t"
  const SHIFTED_UPPER: string := "QWERTYUIOP{}\n\0"
  const SHIFTED_HOME: string := "ASDFGHJKL:\"~\0|"
  const SHIFTED_LOWER: string := "ZXCVBNM<>?\0*\0 \0"
  const US_KEYMAP: Keymap := Keymap(
    PLAIN_DIGITS + PLAIN_UPPER + PLAIN_HOME + PLAIN_LOWER,
    SHIFTED_DIGITS + SHIFTED_UPPER + SHIFTED_HOME + SHIFTED_LOWER)

  /** What the controller holds when the interrupt is taken. */
  datatype Scan = Scan(status: byte, code: byte) {
    /** A byte is waiting: bit 0 of the status port. */
    predicate Ready() {
      status % 2 == 1
    }
  }

  /** The shift flag after a scan. */
  function ShiftAfter(shift: bool, s: Scan): bool {
    if !s.Ready() then shift
    else if s.code == 0x2A || s.code == 0x36 then true
    else if s.code == 0xAA || s.code == 0xB6 then false
    else shift
  }

  /** The character a scan stands for, if any: key presses other than the shift keys, through
      the table the flag selects. */
  function Character(keys: Keymap, shift: bool, s: Scan): Option<char> {
    if !s.Ready() || s.code == 0x2A || s.code == 0x36 || s.code >= 0x80 then None
    else
      var table := if shift then keys.shifted else keys.plain;
      if s.code < |table| && table[s.code] != '\0' then Some(table[s.code]) else None
  }

  /** The cells of a ring from `tail` round to `head`. */
  ghost function Between(buf: seq<char>, tail: nat, head: nat): seq<char>
    requires tail <= |buf| && head <= |buf|
  {
    if tail <= head then buf[tail..head] else buf[tail..] + buf[..head]
  }

  /** The driver's variables. */
  datatype Ring = Ring(keys: Keymap, buf: seq<char>, head: nat, tail: nat, shift: bool) {
    ghost predicate Valid() {
      |buf| == KBDBUF && head < KBDBUF && tail < KBDBUF
    }

    /** The characters not yet taken, oldest first. */
    ghost function Pending(): seq<char>
      requires Valid()
    {
      Between(buf, tail, head)
    }

    /** The interrupt handler. */
    ghost function Interrupted(s: Scan): Ring
      requires Valid()
    {
      var next := (head + 1) % KBDBUF;
      match Character(keys, shift, s)
      case Some(c) =>
        if next != tail then this.(buf := buf[head := c], head := next) else this
      case None => this.(shift := ShiftAfter(shift, s))
    }
  }

  /** Storing a character at the head and moving the head on appends it, unless the ring is full. */
  lemma PutAppends(r: Ring, c: char)
    requires r.Valid()
    ensures |r.Pending()| <= KBDBUF - 1
    ensures var next := (r.head + 1) % KBDBUF;
            && (next == r.tail <==> |r.Pending()| == KBDBUF - 1)
            && (next != r.tail ==> r.(buf := r.buf[r.head := c], head := next).Pending() == r.Pending() + [c])
  {
    PendingLength(r);
    var next := if r.head + 1 == KBDBUF then 0 else r.head + 1;
    assert (r.head + 1) % KBDBUF == next;
    if r.tail > r.head {
      if next != r.tail {
        GrowsWrapped(r.buf, r.tail, r.head, c);
      }
    } else if next == 0 {
      if r.tail > 0 {
        GrowsToEnd(r.buf, r.tail, r.head, c);
      }
    } else {
      GrowsStraight(r.buf, r.tail, r.head, c);
    }
  }

  lemma PendingLength(r: Ring)
    requires r.Valid()
    ensures |r.Pending()| == if r.tail <= r.head then r.head - r.tail else KBDBUF - r.tail + r.head
  {
  }

  lemma GrowsStraight(buf: seq<char>, tail: nat, head: nat, c: char)
    requires tail <= head && head + 1 < |buf|
    ensures Between(buf[head := c], tail, head + 1) == Between(buf, tail, head) + [c]
  {
  }

  lemma GrowsToEnd(buf: seq<char>, tail: nat, head: nat, c: char)
    requires 0 < tail <= head && head + 1 == |buf|
    ensures Between(buf[head := c], tail, 0) == Between(buf, tail, head) + [c]
  {
    var b := buf[head := c];
    assert b[tail..] + b[..0] == b[tail..] == buf[tail..head] + [c];
  }

  lemma GrowsWrapped(buf: seq<char>, tail: nat, head: nat, c: char)
    requires head + 1 < tail < |buf|
    ensures Between(buf[head := c], tail, head + 1) == Between(buf, tail, head) + [c]
  {
    var b := buf[head := c];
    assert b[tail..] == buf[tail..] && b[..head + 1] == buf[..head] + [c];
    Associates(buf[tail..], buf[..head], [c]);
  }

  /** The handler appends the translated character unless 255 are pending, and only then loses it. */
  lemma InterruptAppends(r: Ring, s: Scan)
    requires r.Valid()
    ensures var r' := r.Interrupted(s);
            && r'.Valid() && r'.tail == r.tail && r'.shift == ShiftAfter(r.shift, s)
            && |r.Pending()| <= KBDBUF - 1
            && r'.Pending() == (match Character(r.keys, r.shift, s)
                                case Some(c) => if |r.Pending()| < KBDBUF - 1 then r.Pending() + [c] else r.Pending()
                                case None => r.Pending())
  {
    match Character(r.keys, r.shift, s)
    case Some(c) => PutAppends(r, c);
    case None => PutAppends(r, ' ');
  }

  lemma BetweenFirst(buf: seq<char>, tail: nat, head: nat)
    requires tail < |buf| && head < |buf| && tail != head
    ensures Between(buf, tail, head) == [buf[tail]] + Between(buf, if tail + 1 == |buf| then 0 else tail + 1, head)
  {
    if tail < head {
      assert buf[tail..head] == [buf[tail]] + buf[tail + 1..head];
    } else {
      assert buf[tail..] == [buf[tail]] + buf[tail + 1..];
      Associates([buf[tail]], buf[tail + 1..], buf[..head]);
      assert tail + 1 == |buf| ==> buf[tail + 1..] + buf[..head] == buf[..head] == buf[0..head];
    }
  }

  /** Moving the tail on takes exactly the oldest pending character out. */
  lemma TakeRemovesOldest(r: Ring)
    requires r.Valid()
    ensures r.Pending() == [] <==> r.head == r.tail
    ensures r.Pending() != [] ==>
              r.Pending() == [r.buf[r.tail]] + r.(tail := (r.tail + 1) % KBDBUF).Pending()
  {
    var next := if r.tail + 1 == KBDBUF then 0 else r.tail + 1;
    assert (r.tail + 1) % KBDBUF == next;
    if r.tail != r.head {
      BetweenFirst(r.buf, r.tail, r.head);
    }
  }

  class Driver {
    const keys: Keymap
    var buffer: array<char>
    var head: nat
    var tail: nat
    var shift: bool

    ghost predicate Valid()
      reads this, buffer
    {
      buffer.Length == KBDBUF && Content().Valid()
    }

    ghost function Content(): Ring
      reads this, buffer
    {
      Ring(keys, buffer[..], head, tail, shift)
    }

    constructor ()
      ensures Valid() && fresh(buffer)
      ensures Content().Pending() == [] && !shift && keys == US_KEYMAP
    {
      buffer := new char[KBDBUF](_ => '\0');
      head, tail, shift, keys := 0, 0, false, US_KEYMAP;
    }

    /** keyboardirqh: runs to completion once taken. */
    method KeyboardIrq(s: Scan)
      requires Valid()
      modifies this, buffer
      ensures Valid() && buffer == old(buffer)
      ensures Content() == old(Content()).Interrupted(s)
    {
      if !s.Ready() {
        return;
      }
      if s.code == 0x2A || s.code == 0x36 {
        shift := true;
        return;
      }
      if s.code == 0xAA || s.code == 0xB6 {
        shift := false;
        return;
      }
      if s.code >= 0x80 {
        return;
      }
      var c := Character(keys, shift, s);
      if c.Some? {
        var next := (head + 1) % KBDBUF;
        if next != tail {
          buffer[head] := c.value;
          head := next;
        }
      }
    }

    /** get_key, when no interrupt falls into it: the oldest pending character, if any. */
    method GetKey() returns (got: bool, c: char)
      requires Valid()
      modifies this`tail
      ensures Valid() && got == (old(Content().Pending()) != [])
      ensures got ==> old(Content().Pending()) == [c] + Content().Pending()
      ensures !got ==> Content() == old(Content())
      ensures got ==> c == old(buffer[tail]) && Content() == old(Content()).(tail := (old(tail) + 1) % KBDBUF)
      ensures got <==> old(head != tail)
    {
      ghost var r := Content();
      TakeRemovesOldest(r);
      if head == tail {
        return false, '\0';
      }
      c := buffer[tail];
      tail := (tail + 1) % KBDBUF;
      assert Content() == r.(tail := tail);
      return true, c;
    }
  }

  /** How far the reader is inside get_key, with the values it holds in registers. */
  datatype Reader =
    | Outside
    | HeadRead(h: nat)
    | NotEmpty
    | Loaded(c: char)
    | Advancing(c: char, next: nat)

  /** One thing that happens next: an interrupt, or one more step of the reader. */
  datatype Event = Irq(s: Scan) | Step

  /** The driver with its reader, what get_key has returned so far, and the translated
      characters so far, each with whether fewer than 255 were pending when it came. */
  datatype World = World(ring: Ring, reader: Reader, delivered: seq<char>, log: seq<(char, bool)>)

  /** One load or store of get_key; the call returns when the reader is outside again. */
  ghost function ReaderStep(w: World): World
    requires w.ring.Valid()
  {
    match w.reader
    case Outside => w.(reader := HeadRead(w.ring.head))
    case HeadRead(h) => w.(reader := if h == w.ring.tail then Outside else NotEmpty)
    case NotEmpty => w.(reader := Loaded(w.ring.buf[w.ring.tail]))
    case Loaded(c) => w.(reader := Advancing(c, (w.ring.tail + 1) % KBDBUF))
    case Advancing(c, next) =>
      w.(ring := w.ring.(tail := next), reader := Outside, delivered := w.delivered + [c])
  }

  ghost function After(w: World, e: Event): World
    requires w.ring.Valid()
  {
    match e
    case Step => ReaderStep(w)
    case Irq(s) =>
      var log := match Character(w.ring.keys, w.ring.shift, s)
                 case Some(c) => w.log + [(c, |w.ring.Pending()| < KBDBUF - 1)]
                 case None => w.log;
      w.(ring := w.ring.Interrupted(s), log := log)
  }

  ghost function Kept(log: seq<(char, bool)>): seq<char> {
    if log == [] then []
    else Kept(log[..|log| - 1]) + if log[|log| - 1].1 then [log[|log| - 1].0] else []
  }

  ghost function Chars(log: seq<(char, bool)>): seq<char> {
    seq(|log|, i requires 0 <= i < |log| => log[i].0)
  }

  /** What the scancodes of a history stand for: a fold through the shift flag alone. */
  ghost function Translated(keys: Keymap, es: seq<Event>, shift: bool): seq<char> {
    if es == [] then []
    else TranslatedOne(keys, es[0], shift) + Translated(keys, es[1..], ShiftAlong(es[0], shift))
  }

  ghost function TranslatedOne(keys: Keymap, e: Event, shift: bool): seq<char> {
    match e
    case Step => []
    case Irq(s) => match Character(keys, shift, s) case Some(c) => [c] case None => []
  }

  function ShiftAlong(e: Event, shift: bool): bool {
    match e
    case Step => shift
    case Irq(s) => ShiftAfter(shift, s)
  }

  ghost predicate Consistent(w: World) {
    && w.ring.Valid()
    && Kept(w.log) == w.delivered + w.ring.Pending()
    && match w.reader
       case Outside => true
       case HeadRead(h) => h != w.ring.tail ==> w.ring.Pending() != []
       case NotEmpty => w.ring.Pending() != []
       case Loaded(c) => w.ring.Pending() != [] && w.ring.Pending()[0] == c
       case Advancing(c, next) =>
         w.ring.Pending() != [] && w.ring.Pending()[0] == c && next == (w.ring.tail + 1) % KBDBUF
  }

  ghost function Run(w: World, es: seq<Event>): (r: World)
    requires Consistent(w)
    ensures Consistent(r)
    decreases |es|
  {
    if es == [] then w
    else
      EventKeepsConsistent(w, es[0]);
      Run(After(w, es[0]), es[1..])
  }

  lemma EventKeepsConsistent(w: World, e: Event)
    requires Consistent(w)
    ensures Consistent(After(w, e))
  {
    match e
    case Step => StepKeepsConsistent(w);
    case Irq(s) => IrqKeepsConsistent(w, s);
  }

  lemma StepKeepsConsistent(w: World)
    requires Consistent(w)
    ensures Consistent(ReaderStep(w))
  {
    TakeRemovesOldest(w.ring);
    if w.reader.Advancing? {
      Associates(w.delivered, [w.reader.c], w.ring.(tail := w.reader.next).Pending());
    }
  }

  /** The reader's hold on the oldest character survives: an interrupt only appends. */
  lemma IrqKeepsConsistent(w: World, s: Scan)
    requires Consistent(w)
    ensures Consistent(After(w, Irq(s)))
  {
    hide Ring.Pending, Ring.Interrupted, Kept, Character, ShiftAfter;
    InterruptAppends(w.ring, s);
    var p, p' := w.ring.Pending(), w.ring.Interrupted(s).Pending();
    assert p != [] ==> p' != [] && p'[0] == p[0];
    var typed := Character(w.ring.keys, w.ring.shift, s);
    if typed.Some? {
      KeptLast(w.log, (typed.value, |p| < KBDBUF - 1));
      if |p| < KBDBUF - 1 {
        Associates(w.delivered, p, [typed.value]);
      }
    }
  }

  /** k steps of the reader with no interrupt between them. */
  ghost function Quiet(k: nat): seq<Event> {
    if k == 0 then [] else [Step] + Quiet(k - 1)
  }

  ghost function Stepped(w: World): (r: World)
    requires Consistent(w)
    ensures Consistent(r)
  {
    StepKeepsConsistent(w);
    ReaderStep(w)
  }

  lemma QuietStep(w: World, k: nat)
    requires Consistent(w) && k > 0
    ensures Run(w, Quiet(k)) == Run(Stepped(w), Quiet(k - 1))
  {
    assert Quiet(k)[1..] == Quiet(k - 1);
  }

  /** A call of get_key that is not interrupted is what the reader's steps do from outside back to
      outside: two when the ring is empty, five otherwise. */
  method GetKeyInSteps(d: Driver, ghost w: World) returns (got: bool, c: char)
    requires d.Valid() && Consistent(w) && w.ring == d.Content() && w.reader == Outside
    modifies d`tail
    ensures d.Valid()
    ensures Run(w, Quiet(if got then 5 else 2)) ==
            World(d.Content(), Outside, w.delivered + (if got then [c] else []), w.log)
  {
    got, c := d.GetKey();
    if got {
      FiveSteps(w);
    } else {
      TwoSteps(w);
      assert w.delivered + [] == w.delivered;
    }
  }

  lemma TwoSteps(w: World)
    requires Consistent(w) && w.reader == Outside && w.ring.head == w.ring.tail
    ensures Run(w, Quiet(2)) == w
  {
    QuietStep(w, 2);
    QuietStep(Stepped(w), 1);
  }

  lemma FiveSteps(w: World)
    requires Consistent(w) && w.reader == Outside && w.ring.head != w.ring.tail
    ensures var c := w.ring.buf[w.ring.tail];
            Run(w, Quiet(5)) == World(w.ring.(tail := (w.ring.tail + 1) % KBDBUF), Outside, w.delivered + [c], w.log)
  {
    hide Consistent, Quiet, Run;
    QuietStep(w, 5);
    var w1 := Stepped(w);
    QuietStep(w1, 4);
    var w2 := Stepped(w1);
    QuietStep(w2, 3);
    var w3 := Stepped(w2);
    QuietStep(w3, 2);
    var w4 := Stepped(w3);
    QuietStep(w4, 1);
    NoStep(Stepped(w4));
    RingIsValid(w);
    assert w2 == w.(reader := NotEmpty);
    assert w4 == w.(reader := Advancing(w.ring.buf[w.ring.tail], (w.ring.tail + 1) % KBDBUF));
  }

  lemma RingIsValid(w: World)
    requires Consistent(w)
    ensures w.ring.Valid()
  {
  }

  lemma NoStep(w: World)
    requires Consistent(w)
    ensures Run(w, Quiet(0)) == w
  {
  }

  /** The handler, taken in any state of the reader, does the event of the same name. */
  method TakeInterrupt(d: Driver, s: Scan, ghost w: World)
    requires d.Valid() && w.ring == d.Content()
    modifies d, d.buffer
    ensures d.Valid() && After(w, Irq(s)).ring == d.Content() && After(w, Irq(s)).reader == w.reader
  {
    d.KeyboardIrq(s);
  }

  lemma Associates(a: seq<char>, b: seq<char>, c: seq<char>)
    ensures (a + b) + c == a + (b + c)
  {
  }

  lemma KeptLast(log: seq<(char, bool)>, x: (char, bool))
    ensures Kept(log + [x]) == Kept(log) + if x.1 then [x.0] else []
  {
    assert (log + [x])[..|log|] == log;
  }

  lemma EventLogs(w: World, e: Event)
    requires Consistent(w)
    ensures Chars(After(w, e).log) == Chars(w.log) + TranslatedOne(w.ring.keys, e, w.ring.shift)
    ensures After(w, e).ring.shift == ShiftAlong(e, w.ring.shift) && After(w, e).ring.keys == w.ring.keys
  {
    if e.Irq? {
      InterruptAppends(w.ring, e.s);
    }
  }

  /** What is translated depends on the scancodes alone, not on when the reader runs. */
  lemma {:induction false} LogIsTranslation(w: World, es: seq<Event>)
    requires Consistent(w)
    ensures Chars(Run(w, es).log) == Chars(w.log) + Translated(w.ring.keys, es, w.ring.shift)
    decreases |es|
  {
    if es != [] {
      EventKeepsConsistent(w, es[0]);
      EventLogs(w, es[0]);
      LogIsTranslation(After(w, es[0]), es[1..]);
      Associates(Chars(w.log), TranslatedOne(w.ring.keys, es[0], w.ring.shift),
                 Translated(w.ring.keys, es[1..], ShiftAlong(es[0], w.ring.shift)));
    }
  }

  /** Whatever the interleaving, the characters delivered followed by those pending are, in
      order, the translated ones that found room. */
  lemma InterruptSafeFifo(w: World, es: seq<Event>)
    requires Consistent(w) && w.log == []
    ensures var w' := Run(w, es);
            && w'.ring.Valid() && w'.delivered + w'.ring.Pending() == Kept(w'.log)
            && Chars(w'.log) == Translated(w.ring.keys, es, w.ring.shift)
  {
    LogIsTranslation(w, es);
  }

  lemma {:induction false} AllKept(log: seq<(char, bool)>)
    requires forall x :: x in log ==> x.1
    ensures Kept(log) == Chars(log)
  {
    if log != [] {
      AllKept(log[..|log| - 1]);
      assert log[|log| - 1] in log;
    }
  }

  /** From power-on, when no character came while 255 were pending, every one that was
      typed has been delivered or is pending, in order. */
  lemma NothingIsLost(w: World, es: seq<Event>)
    requires Consistent(w) && w.log == []
    requires forall x :: x in Run(w, es).log ==> x.1
    ensures var w' := Run(w, es);
            w'.ring.Valid() && w'.delivered + w'.ring.Pending() == Translated(w.ring.keys, es, w.ring.shift)
  {
    InterruptSafeFifo(w, es);
    AllKept(Run(w, es).log);
  }

  // ----- the translation tables

  /** Scancode `code` gives `lower` with the shift flag down and `upper` with it set. */
  predicate KeyGives(code: byte, lower: char, upper: char) {
    && Character(US_KEYMAP, false, Scan(1, code)) == Some(lower)
    && Character(US_KEYMAP, true, Scan(1, code)) == Some(upper)
  }

  lemma KeyFromTables(code: byte, lower: char, upper: char)
    requires code < |US_KEYMAP.plain| && code < |US_KEYMAP.shifted| && code < 0x80 && code != 0x2A && code != 0x36
    requires US_KEYMAP.plain[code] == lower && US_KEYMAP.shifted[code] == upper && lower != '\0' && upper != '\0'
    ensures KeyGives(code, lower, upper)
  {
    hide US_KEYMAP;
  }

  lemma FourRows(a: string, b: string, c: string, d: string, t: string)
    requires t == a + b + c + d && |a| == 16 && |b| == |c| == 14 && |d| == 15
    ensures |t| == 59 && (forall i :: 0 <= i < 16 ==> t[i] == a[i]) && (forall i :: 0 <= i < 14 ==> t[16 + i] == b[i])
    ensures (forall i :: 0 <= i < 14 ==> t[30 + i] == c[i]) && (forall i :: 0 <= i < 15 ==> t[44 + i] == d[i])
  {
  }

  lemma RowLengths()
    ensures |PLAIN_DIGITS| == |SHIFTED_DIGITS| == 16 && |PLAIN_UPPER| == |SHIFTED_UPPER| == 14
    ensures |PLAIN_HOME| == |SHIFTED_HOME| == 14 && |PLAIN_LOWER| == |SHIFTED_LOWER| == 15
  {
  }

  /** A key in row r, which starts at code `base`. */
  lemma KeyInRow(base: nat, i: nat, lower: char, upper: char)
    requires (base == 0 && i < 16) || (base == 16 && i < 14) || (base == 30 && i < 12) || (base == 44 && i < 15)
    requires base + i != 0x36
    requires RowLengthsHold()
    requires lower == (if base == 0 then PLAIN_DIGITS else if base == 16 then PLAIN_UPPER
                       else if base == 30 then PLAIN_HOME else PLAIN_LOWER)[i] != '\0'
    requires upper == (if base == 0 then SHIFTED_DIGITS else if base == 16 then SHIFTED_UPPER
                       else if base == 30 then SHIFTED_HOME else SHIFTED_LOWER)[i] != '\0'
    ensures KeyGives(base + i, lower, upper)
  {
    hide PLAIN_DIGITS, PLAIN_UPPER, PLAIN_HOME, PLAIN_LOWER, KeyGives;
    hide SHIFTED_DIGITS, SHIFTED_UPPER, SHIFTED_HOME, SHIFTED_LOWER;
    FourRows(PLAIN_DIGITS, PLAIN_UPPER, PLAIN_HOME, PLAIN_LOWER, US_KEYMAP.plain);
    FourRows(SHIFTED_DIGITS, SHIFTED_UPPER, SHIFTED_HOME, SHIFTED_LOWER, US_KEYMAP.shifted);
    KeyFromTables(base + i, lower, upper);
  }

  predicate RowLengthsHold() {
    && |PLAIN_DIGITS| == |SHIFTED_DIGITS| == 16 && |PLAIN_UPPER| == |SHIFTED_UPPER| == 14
    && |PLAIN_HOME| == |SHIFTED_HOME| == 14 && |PLAIN_LOWER| == |SHIFTED_LOWER| == 15
  }

  /** The rows of digits and letters, where the first scancode set has them. */
  lemma DigitRow()
    ensures KeyGives(0x02, '1', '!') && KeyGives(0x03, '2', '@') && KeyGives(0x04, '3', '#')
    ensures KeyGives(0x05, '4', '$') && KeyGives(0x06, '5', '%') && KeyGives(0x07, '6', '^')
    ensures KeyGives(0x08, '7', '&') && KeyGives(0x09, '8', '*') && KeyGives(0x0A, '9', '(')
    ensures KeyGives(0x0B, '0', ')') && KeyGives(0x0E, '\U{8}', '\U{8}')
  {
    hide KeyGives;
    RowLengths();
    KeyInRow(0, 2, '1', '!');
    KeyInRow(0, 3, '2', '@');
    KeyInRow(0, 4, '3', '#');
    KeyInRow(0, 5, '4', '$');
    KeyInRow(0, 6, '5', '%');
    KeyInRow(0, 7, '6', '^');
    KeyInRow(0, 8, '7', '&');
    KeyInRow(0, 9, '8', '*');
    KeyInRow(0, 10, '9', '(');
    KeyInRow(0, 11, '0', ')');
    KeyInRow(0, 14, '\U{8}', '\U{8}');
  }

  lemma UpperRow()
    ensures KeyGives(0x10, 'q', 'Q') && KeyGives(0x11, 'w', 'W') && KeyGives(0x12, 'e', 'E')
    ensures KeyGives(0x13, 'r', 'R') && KeyGives(0x14, 't', 'T') && KeyGives(0x15, 'y', 'Y')
    ensures KeyGives(0x16, 'u', 'U') && KeyGives(0x17, 'i', 'I') && KeyGives(0x18, 'o', 'O')
    ensures KeyGives(0x19, 'p', 'P') && KeyGives(0x1C, '\n', '\n')
  {
    hide KeyGives;
    RowLengths();
    KeyInRow(16, 0, 'q', 'Q');
    KeyInRow(16, 1, 'w', 'W');
    KeyInRow(16, 2, 'e', 'E');
    KeyInRow(16, 3, 'r', 'R');
    KeyInRow(16, 4, 't', 'T');
    KeyInRow(16, 5, 'y', 'Y');
    KeyInRow(16, 6, 'u', 'U');
    KeyInRow(16, 7, 'i', 'I');
    KeyInRow(16, 8, 'o', 'O');
    KeyInRow(16, 9, 'p', 'P');
    KeyInRow(16, 12, '\n', '\n');
  }

  lemma HomeRow()
    ensures KeyGives(0x1E, 'a', 'A') && KeyGives(0x1F, 's', 'S') && KeyGives(0x20, 'd', 'D')
    ensures KeyGives(0x21, 'f', 'F') && KeyGives(0x22, 'g', 'G') && KeyGives(0x23, 'h', 'H')
    ensures KeyGives(0x24, 'j', 'J') && KeyGives(0x25, 'k', 'K') && KeyGives(0x26, 'l', 'L')
  {
    hide KeyGives;
    RowLengths();
    KeyInRow(30, 0, 'a', 'A');
    KeyInRow(30, 1, 's', 'S');
    KeyInRow(30, 2, 'd', 'D');
    KeyInRow(30, 3, 'f', 'F');
    KeyInRow(30, 4, 'g', 'G');
    KeyInRow(30, 5, 'h', 'H');
    KeyInRow(30, 6, 'j', 'J');
    KeyInRow(30, 7, 'k', 'K');
    KeyInRow(30, 8, 'l', 'L');
  }

  lemma LowerRow()
    ensures KeyGives(0x2C, 'z', 'Z') && KeyGives(0x2D, 'x', 'X') && KeyGives(0x2E, 'c', 'C')
    ensures KeyGives(0x2F, 'v', 'V') && KeyGives(0x30, 'b', 'B') && KeyGives(0x31, 'n', 'N')
    ensures KeyGives(0x32, 'm', 'M') && KeyGives(0x39, ' ', ' ')
  {
    hide KeyGives;
    RowLengths();
    KeyInRow(44, 0, 'z', 'Z');
    KeyInRow(44, 1, 'x', 'X');
    KeyInRow(44, 2, 'c', 'C');
    KeyInRow(44, 3, 'v', 'V');
    KeyInRow(44, 4, 'b', 'B');
    KeyInRow(44, 5, 'n', 'N');
    KeyInRow(44, 6, 'm', 'M');
    KeyInRow(44, 13, ' ', ' ');
  }

  /** No scan gives a capital with the flag down, or a small letter with it set. */
  lemma CaseFollowsShift(s: Scan)
    ensures var plain := Character(US_KEYMAP, false, s); plain.Some? ==> !IsCapital(plain.value)
    ensures var shifted := Character(US_KEYMAP, true, s); shifted.Some? ==> !IsSmall(shifted.value)
  {
    if s.code < |US_KEYMAP.plain| {
      NoCapitals(s.code);
    }
  }

  lemma NoCapitals(i: nat)
    requires i < |US_KEYMAP.plain|
    ensures |US_KEYMAP.plain| == |US_KEYMAP.shifted| == 59
    ensures !IsCapital(US_KEYMAP.plain[i]) && !IsSmall(US_KEYMAP.shifted[i])
  {
    hide PLAIN_DIGITS, PLAIN_UPPER, PLAIN_HOME, PLAIN_LOWER;
    hide SHIFTED_DIGITS, SHIFTED_UPPER, SHIFTED_HOME, SHIFTED_LOWER;
    RowLengths();
    FourRows(PLAIN_DIGITS, PLAIN_UPPER, PLAIN_HOME, PLAIN_LOWER, US_KEYMAP.plain);
    FourRows(SHIFTED_DIGITS, SHIFTED_UPPER, SHIFTED_HOME, SHIFTED_LOWER, US_KEYMAP.shifted);
    if i < 16 {
      DigitsCase(i);
    } else if i < 30 {
      UpperCase(i - 16);
      assert US_KEYMAP.plain[16 + (i - 16)] == PLAIN_UPPER[i - 16];
    } else if i < 44 {
      HomeCase(i - 30);
      assert US_KEYMAP.plain[30 + (i - 30)] == PLAIN_HOME[i - 30];
    } else {
      LowerCase(i - 44);
      assert US_KEYMAP.plain[44 + (i - 44)] == PLAIN_LOWER[i - 44];
    }
  }

  predicate IsCapital(c: char) {
    'A' <= c <= 'Z'
  }

  predicate IsSmall(c: char) {
    'a' <= c <= 'z'
  }

  lemma DigitsCase(i: nat)
    requires i < 16
    ensures |PLAIN_DIGITS| == |SHIFTED_DIGITS| == 16 && !IsCapital(PLAIN_DIGITS[i]) && !IsSmall(SHIFTED_DIGITS[i])
  {
  }

  lemma UpperCase(i: nat)
    requires i < 14
    ensures |PLAIN_UPPER| == |SHIFTED_UPPER| == 14 && !IsCapital(PLAIN_UPPER[i]) && !IsSmall(SHIFTED_UPPER[i])
  {
  }

  lemma HomeCase(i: nat)
    requires i < 14
    ensures |PLAIN_HOME| == |SHIFTED_HOME| == 14 && !IsCapital(PLAIN_HOME[i]) && !IsSmall(SHIFTED_HOME[i])
  {
  }

  lemma LowerCase(i: nat)
    requires i < 15
    ensures |PLAIN_LOWER| == |SHIFTED_LOWER| == 15 && !IsCapital(PLAIN_LOWER[i]) && !IsSmall(SHIFTED_LOWER[i])
  {
  }

  /** Key releases, the shift keys themselves, and interrupts without a byte give nothing. */
  lemma SilentScans(keys: Keymap, shift: bool, s: Scan)
    requires s.status % 2 == 0 || s.code >= 0x80 || s.code == 0x2A || s.code == 0x36
    ensures Character(keys, shift, s) == None
  {
  }

  /** Of the status only bit 0 matters. */
  lemma OtherStatusBits(keys: Keymap, shift: bool, s: Scan)
    requires s.status % 2 == 1
    ensures Character(keys, shift, s) == Character(keys, shift, Scan(1, s.code))
    ensures ShiftAfter(shift, s) == ShiftAfter(shift, Scan(1, s.code))
  {
  }

  /** A key typed with a shift key held and typed again after it is let go gives both characters. */
  lemma ShiftedThenPlain(code: byte, lower: char, upper: char, right: bool)
    requires KeyGives(code, lower, upper)
    ensures var (make, brk) := if right then (0x36, 0xB6) else (0x2A, 0xAA);
            var (e1, e2, e3) := (Irq(Scan(1, make)), Irq(Scan(1, code)), Irq(Scan(1, brk)));
            Translated(US_KEYMAP, [e1, e2, e3, e2], false) == [upper, lower]
  {
    var (make, brk) := if right then (0x36, 0xB6) else (0x2A, 0xAA);
    var e1, e2, e3 := Irq(Scan(1, make)), Irq(Scan(1, code)), Irq(Scan(1, brk));
    assert [e1, e2, e3, e2][1..] == [e2, e3, e2] && [e2, e3, e2][1..] == [e3, e2];
    assert [e3, e2][1..] == [e2] && [e2][1..] == [];
    KeyKeepsShift(code, lower, upper);
    assert Translated(US_KEYMAP, [e2], false) == [lower];
    assert Translated(US_KEYMAP, [e3, e2], true) == [lower];
    assert Translated(US_KEYMAP, [e2, e3, e2], true) == [upper, lower];
  }

  lemma KeyKeepsShift(code: byte, lower: char, upper: char)
    requires KeyGives(code, lower, upper)
    ensures forall shift :: ShiftAfter(shift, Scan(1, code)) == shift
  {
  }
}

/** The string tokenizer: strchr, strtok with its remembered position, and what repeated calls
    of it make of a string. */
module Tokens {
  import opened Options
  import opened Words
  import opened KfsLayout

  /** The characters before the first delimiter. */
  function Span(t: seq<byte>, delim: seq<byte>): (k: nat)
    ensures k <= |t| && (k < |t| ==> t[k] in delim) && (forall j :: 0 <= j < k ==> t[j] !in delim)
  {
    if t == [] || t[0] in delim then 0 else 1 + Span(t[1..], delim)
  }

  /** A text cut at every delimiter; a token can be empty. */
  function Split(t: seq<byte>, delim: seq<byte>): (tokens: seq<seq<byte>>)
    ensures tokens != []
    decreases |t|
  {
    var k := Span(t, delim);
    if k == |t| then [t] else [t[..k]] + Split(t[k + 1..], delim)
  }

  /** The delimiters of a text. */
  function Delimiters(t: seq<byte>, delim: seq<byte>): (seps: seq<byte>)
    ensures |Split(t, delim)| == |seps| + 1
    decreases |t|
  {
    var k := Span(t, delim);
    if k == |t| then [] else [t[k]] + Delimiters(t[k + 1..], delim)
  }

  /** Tokens with delimiters put back between them. */
  ghost function Joined(tokens: seq<seq<byte>>, seps: seq<byte>): seq<byte>
    requires |tokens| == |seps| + 1
  {
    if seps == [] then tokens[0] else tokens[0] + [seps[0]] + Joined(tokens[1..], seps[1..])
  }

  ghost predicate Free(token: seq<byte>, delim: seq<byte>) {
    forall c :: c in token ==> c !in delim
  }

  /** Tokens and separators that could have been cut with these delimiters. */
  ghost predicate Cut(tokens: seq<seq<byte>>, seps: seq<byte>, delim: seq<byte>) {
    |tokens| == |seps| + 1 && (forall x :: x in tokens ==> Free(x, delim)) && (forall c :: c in seps ==> c in delim)
  }

  /** Splitting gives delimiter-free tokens, */
  lemma {:induction false} SplitIsCut(t: seq<byte>, delim: seq<byte>)
    ensures Cut(Split(t, delim), Delimiters(t, delim), delim)
    decreases |t|
  {
    var k := Span(t, delim);
    if k < |t| {
      SplitIsCut(t[k + 1..], delim);
      assert Free(t[..k], delim);
    }
  }

  /** which rejoin to the text. */
  lemma {:induction false} SplitThenJoin(t: seq<byte>, delim: seq<byte>)
    ensures Joined(Split(t, delim), Delimiters(t, delim)) == t
    decreases |t|
  {
    hide Joined, Delimiters, Split;
    var k := Span(t, delim);
    SplitUnfolds(t, delim, k);
    DelimitersUnfold(t, delim, k);
    if k == |t| {
      JoinOne(t);
    } else {
      var tail := t[k + 1..];
      SplitThenJoin(tail, delim);
      JoinStep(t[..k], t[k], Split(tail, delim), Delimiters(tail, delim));
      assert t == t[..k] + [t[k]] + tail;
    }
  }

  lemma SplitUnfolds(t: seq<byte>, delim: seq<byte>, k: nat)
    requires k == Span(t, delim)
    ensures Split(t, delim) == if k == |t| then [t] else [t[..k]] + Split(t[k + 1..], delim)
  {
    hide Span;
  }

  lemma DelimitersUnfold(t: seq<byte>, delim: seq<byte>, k: nat)
    requires k == Span(t, delim)
    ensures Delimiters(t, delim) == if k == |t| then [] else [t[k]] + Delimiters(t[k + 1..], delim)
  {
    hide Span, Split;
  }

  lemma JoinOne(t: seq<byte>)
    ensures Joined([t], []) == t
  {
  }

  lemma JoinStep(first: seq<byte>, sep: byte, tokens: seq<seq<byte>>, seps: seq<byte>)
    requires |tokens| == |seps| + 1
    ensures Joined([first] + tokens, [sep] + seps) == first + [sep] + Joined(tokens, seps)
  {
    assert ([first] + tokens)[1..] == tokens && ([sep] + seps)[1..] == seps;
  }

  lemma {:induction false} SpanOf(token: seq<byte>, rest: seq<byte>, delim: seq<byte>)
    requires Free(token, delim) && (rest != [] ==> rest[0] in delim)
    ensures Span(token + rest, delim) == |token|
  {
    if token == [] {
      assert token + rest == rest;
    } else {
      assert token[0] in token && (token + rest)[1..] == token[1..] + rest;
      SpanOf(token[1..], rest, delim);
    }
  }

  lemma SplitStep(first: seq<byte>, sep: byte, rest: seq<byte>, delim: seq<byte>)
    requires Free(first, delim) && sep in delim
    ensures Split(first + [sep] + rest, delim) == [first] + Split(rest, delim)
    ensures Delimiters(first + [sep] + rest, delim) == [sep] + Delimiters(rest, delim)
  {
    var t := first + [sep] + rest;
    assert t == first + ([sep] + rest) && t[..|first|] == first && t[|first| + 1..] == rest;
    SpanOf(first, [sep] + rest, delim);
  }

  lemma CutTail(tokens: seq<seq<byte>>, seps: seq<byte>, delim: seq<byte>)
    requires Cut(tokens, seps, delim) && seps != []
    ensures Cut(tokens[1..], seps[1..], delim) && Free(tokens[0], delim) && seps[0] in delim
  {
  }

  /** The pair is what its joined text splits into. */
  ghost predicate SplitsBack(tokens: seq<seq<byte>>, seps: seq<byte>, delim: seq<byte>) {
    |tokens| == |seps| + 1 &&
    Split(Joined(tokens, seps), delim) == tokens && Delimiters(Joined(tokens, seps), delim) == seps
  }

  lemma SplitsBackStep(first: seq<byte>, sep: byte, tokens: seq<seq<byte>>, seps: seq<byte>, delim: seq<byte>)
    requires SplitsBack(tokens, seps, delim) && Free(first, delim) && sep in delim
    ensures SplitsBack([first] + tokens, [sep] + seps, delim)
  {
    JoinStep(first, sep, tokens, seps);
    SplitStep(first, sep, Joined(tokens, seps), delim);
  }

  /** And it is the only way to cut a text into such tokens. */
  lemma {:induction false} JoinThenSplit(tokens: seq<seq<byte>>, seps: seq<byte>, delim: seq<byte>)
    requires Cut(tokens, seps, delim)
    ensures SplitsBack(tokens, seps, delim)
    decreases |seps|
  {
    if seps == [] {
      SpanOf(tokens[0], [], delim);
      assert tokens[0] + [] == tokens[0] && tokens == [tokens[0]];
    } else {
      CutTail(tokens, seps, delim);
      JoinThenSplit(tokens[1..], seps[1..], delim);
      SplitsBackStep(tokens[0], seps[0], tokens[1..], seps[1..], delim);
      assert [tokens[0]] + tokens[1..] == tokens && [seps[0]] + seps[1..] == seps;
    }
  }

  /** A C string seen from position i of its buffer, with no NUL before. */
  lemma {:induction false} CStrAt(b: seq<byte>, i: nat)
    requires i < |b| && (forall j :: 0 <= j < i ==> b[j] != 0)
    ensures CStr(b) == b[..i] + CStr(b[i..])
  {
    if i > 0 {
      CStrAt(b[1..], i - 1);
      assert b[1..][i - 1..] == b[i..];
      assert b[..i] == [b[0]] + b[1..][..i - 1];
    } else {
      assert b[..0] == [] && b[0..] == b;
    }
  }

  /** strchr on a NUL-terminated buffer. */
  method StrChr(s: seq<byte>, c: byte) returns (at: Option<nat>)
    requires 0 in s
    ensures at.None? <==> c !in CStr(s)
    ensures at.Some? ==> at.value < |CStr(s)| && CStr(s)[at.value] == c && c !in CStr(s)[..at.value]
  {
    var i := 0;
    while s[i] != 0
      invariant i < |s| && 0 in s[i..] && (forall j :: 0 <= j < i ==> s[j] != 0) && c !in s[..i]
      decreases |s| - i
    {
      if s[i] == c {
        CStrAt(s, i);
        return Some(i);
      }
      i := i + 1;
    }
    CStrAt(s, i);
    return None;
  }

  /** A scan that met neither NUL nor delimiter before position k, but one of them there. */
  lemma SpanAt(b: seq<byte>, k: nat, delim: seq<byte>)
    requires k < |b| && (forall j :: 0 <= j < k ==> b[j] != 0 && b[j] !in delim)
    requires b[k] == 0 || b[k] in delim
    ensures Span(CStr(b), delim) == k && (b[k] == 0 <==> k == |CStr(b)|)
  {
    CStrAt(b, k);
    SpanOf(b[..k], CStr(b[k..]), delim);
  }

  /** The effect of taking the token at p: its delimiter becomes a NUL and the next token starts
      behind it, or nothing changes and there is no next token. */
  ghost predicate Taken(was: seq<byte>, p: nat, delim: seq<byte>, now: seq<byte>, next: Option<nat>) {
    p < |was| && 0 in was[p..] &&
    var t := CStr(was[p..]);
    var k := Span(t, delim);
    if k == |t| then now == was && next.None?
    else p + k < |was| && now == was[p + k := 0] && next == Some(p + k + 1)
  }

  /** Neither NUL nor delimiter from p on before q, but one of them at q; NUL only at the end. */
  ghost predicate ScannedTo(b: seq<byte>, p: nat, q: nat, delim: seq<byte>) {
    p <= q < |b| && 0 in b[q..] && (forall j :: p <= j < q ==> b[j] != 0 && b[j] !in delim) &&
    (b[q] == 0 || b[q] in delim)
  }

  lemma NulInTail(b: seq<byte>, p: nat, q: nat)
    requires p <= q < |b| && 0 in b[q..]
    ensures 0 in b[p..] && (b[q] != 0 ==> 0 in b[q + 1..])
  {
    var j :| 0 <= j < |b[q..]| && b[q..][j] == 0;
    assert b[p..][q - p + j] == 0;
    if b[q] != 0 {
      assert b[q + 1..][j - 1] == 0;
    }
  }

  lemma TakenAt(b: seq<byte>, p: nat, q: nat, delim: seq<byte>)
    requires ScannedTo(b, p, q, delim)
    ensures b[q] == 0 ==> Taken(b, p, delim, b, None)
    ensures b[q] != 0 ==> Taken(b, p, delim, b[q := 0], Some(q + 1)) && 0 in b[q + 1..]
  {
    NulInTail(b, p, q);
    var c, k := b[p..], q - p;
    assert c[k] == b[q] && c[k + 1..] == b[q + 1..];
    assert forall j :: 0 <= j < k ==> c[j] == b[p + j];
    SpanAt(c, k, delim);
  }

  /** strtok over one buffer, with the static pointer it remembers between calls. */
  class Tokenizer {
    const buf: array<byte>
    var next: Option<nat>

    constructor (buf: array<byte>)
      ensures this.buf == buf && next.None?
    {
      this.buf := buf;
      next := None;
    }

    /** Position p of the buffer is the start of a C string. */
    ghost predicate StringAt(p: Option<nat>)
      reads this, buf
    {
      p.Some? ==> p.value < buf.Length && 0 in buf[p.value..]
    }

    /** One call: the token up to the first delimiter is closed with a NUL in place, and the
        call after it goes on behind; the last token ends the sequence. */
    method StrTok(str: Option<nat>, delim: seq<byte>) returns (start: Option<nat>)
      requires StringAt(if str.Some? then str else next) && 0 in delim
      modifies this, buf
      ensures StringAt(next) && start == if str.Some? then str else old(next)
      ensures start.None? ==> next.None? && buf[..] == old(buf[..])
      ensures start.Some? ==> Taken(old(buf[..]), start.value, CStr(delim), buf[..], next)
    {
      start := if str.Some? then str else next;
      next := start;
      if start.None? {
        return;
      }
      var q := TokenEnd(start.value, delim);
      TakenAt(buf[..], start.value, q, CStr(delim));
      if buf[q] != 0 {
        buf[q] := 0;
        next := Some(q + 1);
        assert 0 in old(buf[q + 1..]);
        assert buf[q + 1..] == old(buf[q + 1..]);
      } else {
        next := None;
      }
    }

    /** The loop of strtok: the end of the string or the first delimiter in it. */
    method TokenEnd(p: nat, delim: seq<byte>) returns (q: nat)
      requires StringAt(Some(p)) && 0 in delim
      ensures ScannedTo(buf[..], p, q, CStr(delim))
    {
      q := p;
      var stop := StrChr(delim, buf[q]);
      while buf[q] != 0 && stop.None?
        invariant p <= q < buf.Length && 0 in buf[q..] && (stop.None? <==> buf[q] !in CStr(delim))
        invariant forall j :: p <= j < q ==> buf[j] != 0 && buf[j] !in CStr(delim)
        decreases buf.Length - q
      {
        q := q + 1;
        stop := StrChr(delim, buf[q]);
      }
    }
  }

  /** A token stands in the buffer, closed, before position `limit`. */
  ghost predicate TokenAt(b: seq<byte>, limit: nat, p: nat, token: seq<byte>) {
    p + |token| < limit <= |b| && 0 !in token && b[p..p + |token|] == token && b[p + |token|] == 0
  }

  lemma TokenStays(b: seq<byte>, limit: nat, p: nat, token: seq<byte>, b': seq<byte>, limit': nat)
    requires TokenAt(b, limit, p, token) && limit <= limit' <= |b'| == |b| && b'[..limit] == b[..limit]
    ensures TokenAt(b', limit', p, token)
  {
    assert b[p..p + |token|] == b[..limit][p..p + |token|];
    assert b'[p..p + |token|] == b'[..limit][p..p + |token|];
    assert b[p + |token|] == b[..limit][p + |token|] == b'[..limit][p + |token|];
  }

  /** A closed token is what a C string reader sees there. */
  lemma TokenReads(b: seq<byte>, limit: nat, p: nat, token: seq<byte>)
    requires TokenAt(b, limit, p, token)
    ensures CStr(b[p..]) == token
  {
    var k := |token|;
    assert b[p..] == token + [0] + b[p + k + 1..];
    CStrOf(token, b[p + k + 1..]);
  }

  ghost predicate TokensAt(b: seq<byte>, limit: nat, starts: seq<nat>, tokens: seq<seq<byte>>) {
    |starts| == |tokens| && (forall i :: 0 <= i < |starts| ==> TokenAt(b, limit, starts[i], tokens[i]))
  }

  lemma TokensGrow(b: seq<byte>, p: nat, starts: seq<nat>, tokens: seq<seq<byte>>, token: seq<byte>,
                   b': seq<byte>, limit: nat)
    requires TokensAt(b, p, starts, tokens) && p <= limit <= |b'| == |b| && b'[..p] == b[..p]
    requires TokenAt(b', limit, p, token)
    ensures TokensAt(b', limit, starts + [p], tokens + [token])
  {
    forall i | 0 <= i < |starts| ensures TokenAt(b', limit, starts[i], tokens[i]) {
      TokenStays(b, p, starts[i], tokens[i], b', limit);
    }
  }

  /** A C string reader finds these tokens at these places. */
  ghost predicate Readable(b: seq<byte>, starts: seq<nat>, tokens: seq<seq<byte>>) {
    |starts| == |tokens| &&
    (forall i :: 0 <= i < |starts| ==> starts[i] < |b| && CStr(b[starts[i]..]) == tokens[i])
  }

  lemma TokensRead(b: seq<byte>, starts: seq<nat>, tokens: seq<seq<byte>>)
    requires TokensAt(b, |b|, starts, tokens)
    ensures Readable(b, starts, tokens)
  {
    forall i | 0 <= i < |starts| ensures starts[i] < |b| && CStr(b[starts[i]..]) == tokens[i] {
      TokenReads(b, |b|, starts[i], tokens[i]);
    }
  }

  /** Where the tokens taken so far end, and what is left to be split. */
  ghost function Limit(b: seq<byte>, next: Option<nat>): nat {
    if next.None? then |b| else next.value
  }

  ghost function Left(b: seq<byte>, next: Option<nat>, delim: seq<byte>): seq<seq<byte>>
    requires next.Some? ==> next.value <= |b|
  {
    if next.None? then [] else Split(CStr(b[next.value..]), delim)
  }

  /** The token at the front of a C string. */
  ghost function FirstToken(b: seq<byte>, p: nat, delim: seq<byte>): seq<byte>
    requires p <= |b|
  {
    var t := CStr(b[p..]);
    t[..Span(t, delim)]
  }

  /** One call of strtok takes one token from what is left, */
  lemma TakenSplits(b: seq<byte>, p: nat, delim: seq<byte>, b': seq<byte>, next: Option<nat>)
    requires Taken(b, p, delim, b', next)
    ensures p <= Limit(b', next) <= |b'| == |b| && b'[..p] == b[..p]
    ensures Left(b, Some(p), delim) == [FirstToken(b, p, delim)] + Left(b', next, delim)
  {
    var t := CStr(b[p..]);
    var k := Span(t, delim);
    if k < |t| {
      CStrTail(b[p..], k + 1);
      assert b[p..][k + 1..] == b[p + k + 1..] == b'[p + k + 1..];
    } else {
      assert t[..k] == t && [t] + [] == [t];
    }
  }

  /** and closes it in the buffer. */
  lemma TakenCloses(b: seq<byte>, p: nat, delim: seq<byte>, b': seq<byte>, next: Option<nat>)
    requires Taken(b, p, delim, b', next)
    ensures TokenAt(b', Limit(b', next), p, FirstToken(b, p, delim))
  {
    var t := CStr(b[p..]);
    var k := Span(t, delim);
    CStrLies(b[p..]);
    assert b[p..p + k] == b[p..][..k] == t[..k];
    assert b'[p..p + k] == b[p..p + k];
    assert k == |t| ==> b[p..][k] == 0;
  }

  /** The tokens taken so far stand in the buffer, and with what is left they are the whole. */
  ghost predicate Progress(b: seq<byte>, next: Option<nat>, starts: seq<nat>, tokens: seq<seq<byte>>,
                           whole: seq<seq<byte>>, delim: seq<byte>)
  {
    (next.Some? ==> next.value <= |b|) && whole == tokens + Left(b, next, delim) &&
    TokensAt(b, Limit(b, next), starts, tokens)
  }

  lemma Advance(b: seq<byte>, p: nat, starts: seq<nat>, tokens: seq<seq<byte>>, whole: seq<seq<byte>>,
                delim: seq<byte>, b': seq<byte>, next: Option<nat>)
    requires Taken(b, p, delim, b', next) && Progress(b, Some(p), starts, tokens, whole, delim)
    ensures Progress(b', next, starts + [p], tokens + [FirstToken(b, p, delim)], whole, delim)
  {
    hide CStr, Span, Split, Left, TokensAt, TokenAt, FirstToken, Taken;
    var token := FirstToken(b, p, delim);
    TakenSplits(b, p, delim, b', next);
    TakenCloses(b, p, delim, b', next);
    TokensGrow(b, p, starts, tokens, token, b', Limit(b', next));
    assert tokens + ([token] + Left(b', next, delim)) == (tokens + [token]) + Left(b', next, delim);
  }

  lemma Finish(b: seq<byte>, starts: seq<nat>, tokens: seq<seq<byte>>, whole: seq<seq<byte>>, delim: seq<byte>)
    requires Progress(b, None, starts, tokens, whole, delim)
    ensures Readable(b, starts, whole)
  {
    assert whole == tokens;
    TokensRead(b, starts, tokens);
  }

  /** The C string at the front of a buffer is a NUL-free prefix of it, closed by a NUL. */
  lemma {:induction false} CStrLies(b: seq<byte>)
    requires 0 in b
    ensures var t := CStr(b); |t| < |b| && b[..|t|] == t && 0 !in t && b[|t|] == 0
  {
    if b[0] != 0 {
      assert b == [b[0]] + b[1..];
      CStrLies(b[1..]);
      assert b[..|CStr(b)|] == [b[0]] + b[1..][..|CStr(b[1..])|];
    }
  }

  lemma CStrTail(b: seq<byte>, i: nat)
    requires 0 in b && i <= |CStr(b)|
    ensures i <= |b| && CStr(b)[i..] == CStr(b[i..])
  {
    CStrLies(b);
    CStrAt(b, i);
    assert CStr(b)[i..] == CStr(b[i..]);
  }

  /** Calling strtok until it returns NULL yields the tokens of the string, in order, and each
      can still be read where it was found. */
  method AllTokens(tk: Tokenizer, delim: seq<byte>) returns (starts: seq<nat>)
    requires 0 in tk.buf[..] && 0 in delim
    modifies tk, tk.buf
    ensures Readable(tk.buf[..], starts, Split(CStr(old(tk.buf[..])), CStr(delim)))
  {
    var str := Some(0);
    starts := [];
    ghost var tokens: seq<seq<byte>>, rest := [], str;
    ghost var whole := Split(CStr(tk.buf[..]), CStr(delim));
    assert tk.buf[0..] == tk.buf[..];
    while true
      invariant rest == (if str.Some? then str else tk.next) && tk.StringAt(rest)
      invariant Progress(tk.buf[..], rest, starts, tokens, whole, CStr(delim))
      decreases if rest.None? then 0 else 1 + tk.buf.Length - rest.value
    {
      ghost var was := tk.buf[..];
      var at := tk.StrTok(str, delim);
      if at.None? {
        break;
      }
      Advance(was, at.value, starts, tokens, whole, CStr(delim), tk.buf[..], tk.next);
      starts, tokens := starts + [at.value], tokens + [FirstToken(was, at.value, CStr(delim))];
      str, rest := None, tk.next;
    }
    Finish(tk.buf[..], starts, tokens, whole, CStr(delim));
  }
}

/** The console's buffers: the zero-terminated line buffer and the ring of cooked lines, changed in place. */
module Console {
  import opened LineDiscipline

  // The line buffer.

  ghost predicate LineIn(b: seq<char>, i: nat, l: Line) {
    && |b| == LBUF_SZ + 1 && LineOk(l) && i == l.cur
    && b[..|l.text|] == l.text && b[|l.text|] == NUL
  }

  /** A buffer whose tail from i on has moved up by one, with ch in the gap, holds the longer line. */
  lemma Inserted(b: seq<char>, b': seq<char>, l: Line, ch: char)
    requires LineIn(b, l.cur, l) && |b'| == |b| && ch != NUL && |l.text| + 1 < LBUF_SZ
    requires b'[..l.cur] == b[..l.cur] && b'[l.cur] == ch
    requires forall x :: l.cur < x <= |l.text| + 1 ==> b'[x] == b[x - 1]
    ensures LineIn(b', l.cur + 1, Accept(l, ch))
  {
    var t := Accept(l, ch).text;
    forall x | 0 <= x < |t| ensures b'[..|t|][x] == t[x] {
      if x < l.cur { assert b'[..l.cur][x] == b[..|l.text|][x]; }
      else if x > l.cur { assert b[..|l.text|][x - 1] == l.text[x - 1]; }
    }
  }

  lemma Removed(b: seq<char>, b': seq<char>, l: Line)
    requires LineIn(b, l.cur, l) && |b'| == |b| && l.cur > 0
    requires b'[..l.cur - 1] == b[..l.cur - 1]
    requires forall x :: l.cur - 1 <= x < |l.text| ==> b'[x] == b[x + 1]
    ensures LineIn(b', l.cur - 1, Backspace(l))
  {
    var t := Backspace(l).text;
    forall x | 0 <= x < |t| ensures b'[..|t|][x] == t[x] {
      if x < l.cur - 1 { assert b'[..l.cur - 1][x] == b[..|l.text|][x]; }
      else { assert b[..|l.text|][x + 1] == l.text[x + 1]; }
    }
  }

  /** Characters before the end are not zero, so the scans for the terminator stop at the end of the line. */
  lemma NoZeros(b: seq<char>, i: nat, l: Line)
    requires LineIn(b, i, l)
    ensures forall x :: 0 <= x < |l.text| ==> b[x] == l.text[x] && b[x] != NUL
  {
    forall x | 0 <= x < |l.text| ensures b[x] == l.text[x] && b[x] != NUL {
      assert b[..|l.text|][x] == l.text[x] && l.text[x] in l.text;
    }
  }

  /** The tail moves up, its end first, then ch takes the gap. */
  method InsertAt(lbuf: array<char>, i: nat, ch: char, ghost l: Line) returns (ok: bool)
    requires LineIn(lbuf[..], i, l) && ch != NUL
    modifies lbuf
    ensures ok == (|l.text| + 1 < LBUF_SZ)
    ensures ok ==> LineIn(lbuf[..], i + 1, Accept(l, ch))
  {
    ghost var b, n := lbuf[..], |l.text|;
    NoZeros(b, i, l);
    var cc := 0;
    while lbuf[i + cc] != NUL
      invariant i + cc <= n
      decreases n - cc
    {
      cc := cc + 1;
    }
    assert i + cc == n;
    var k := cc + 1;
    while k > 0
      invariant 0 <= k <= cc + 1
      invariant k < cc + 1 ==> n + 1 < LBUF_SZ
      invariant forall x :: 0 <= x <= i + k && x < |b| ==> lbuf[x] == b[x]
      invariant forall x :: i + k < x <= n + 1 ==> lbuf[x] == b[x - 1]
    {
      if i + k >= LBUF_SZ { return false; }
      lbuf[i + k] := lbuf[i + k - 1];
      k := k - 1;
    }
    lbuf[i] := ch;
    Inserted(b, lbuf[..], l, ch);
    ok := true;
  }

  /** The tail moves down, its terminator last. */
  method RemoveAt(lbuf: array<char>, i: nat, ghost l: Line)
    requires LineIn(lbuf[..], i + 1, l)
    modifies lbuf
    ensures LineIn(lbuf[..], i, Backspace(l))
  {
    ghost var b, n := lbuf[..], |l.text|;
    NoZeros(b, i + 1, l);
    var p := i;
    while lbuf[p] != NUL
      invariant i <= p <= n
      invariant forall x :: 0 <= x < i ==> lbuf[x] == b[x]
      invariant forall x :: i <= x < p ==> lbuf[x] == b[x + 1]
      invariant forall x :: p <= x <= n ==> lbuf[x] == b[x]
      decreases n - p
    {
      lbuf[p] := lbuf[p + 1];
      p := p + 1;
    }
    Removed(b, lbuf[..], l);
  }

  // The ring.

  function RingOf(b: seq<char>, f: nat, r: nat): seq<char>
    requires |b| == CBUF_SZ + 1 && f < CBUF_SZ && r < CBUF_SZ
  {
    if f <= r then b[f..r] else b[f..CBUF_SZ] + b[..r]
  }

  lemma RingPush(b: seq<char>, f: nat, r: nat, ch: char)
    requires |b| == CBUF_SZ + 1 && f < CBUF_SZ && r < CBUF_SZ
    ensures (r + 1) % CBUF_SZ == f <==> |RingOf(b, f, r)| + 1 == CBUF_SZ
    ensures (r + 1) % CBUF_SZ != f ==> RingOf(b[r := ch], f, (r + 1) % CBUF_SZ) == RingOf(b, f, r) + [ch]
  {
    if r + 1 < CBUF_SZ { assert (r + 1) % CBUF_SZ == r + 1; }
  }

  lemma RingShort(b: seq<char>, f: nat, r: nat)
    requires |b| == CBUF_SZ + 1 && f < CBUF_SZ && r < CBUF_SZ
    ensures |RingOf(b, f, r)| < CBUF_SZ
  {
  }

  lemma RingPop(b: seq<char>, f: nat, r: nat)
    requires |b| == CBUF_SZ + 1 && f < CBUF_SZ && r < CBUF_SZ
    ensures f == r <==> RingOf(b, f, r) == []
    ensures f != r ==> RingOf(b, f, r)[0] == b[f] && RingOf(b, (f + 1) % CBUF_SZ, r) == RingOf(b, f, r)[1..]
  {
    if f + 1 < CBUF_SZ { assert (f + 1) % CBUF_SZ == f + 1; }
  }

  lemma RingEmpty(b: seq<char>, f: nat, r: nat)
    requires |b| == CBUF_SZ + 1 && f < CBUF_SZ && r < CBUF_SZ
    ensures f == r <==> RingOf(b, f, r) == []
  {
  }

  /** get_cooked: deliver up to `count` bytes of the first line, and move f behind them (and behind the terminator, if
      it was reached). */
  method GetCooked(cbuf: array<char>, f0: nat, r: nat, count0: int, ghost ring: seq<char>)
      returns (f: nat, bytes: seq<char>)
    requires cbuf.Length == CBUF_SZ + 1 && f0 < CBUF_SZ && r < CBUF_SZ && f0 != r
    requires ring == RingOf(cbuf[..], f0, r) && Terminated(ring)
    ensures f < CBUF_SZ && ring != [] && LineLen(ring) < |ring|
    ensures bytes == Taken(ring, count0) && RingOf(cbuf[..], f, r) == Leaves(ring, count0)
  {
    f := f0;
    ghost var cb, n := cbuf[..], 0;
    RingPop(cb, f, r);
    EndInRing(ring);
    StartGot(ring);
    hide RingOf, LineLen, Taken, Leaves, Terminated, Got;
    bytes := [];
    var count := count0;
    while count != 0
      invariant f < CBUF_SZ && count + n == count0 && n <= LineLen(ring) < |ring|
      invariant Got(ring, n, bytes, RingOf(cb, f, r))
      invariant count0 >= 0 ==> count >= 0
      decreases LineLen(ring) - n
    {
      count := count - 1;
      RingPop(cb, f, r);
      GotStep(ring, n, bytes, RingOf(cb, f, r));
      if cbuf[f] == NUL {
        GotLine(ring, n, bytes, RingOf(cb, f, r), count0);
        f := (f + 1) % CBUF_SZ;
        return;
      }
      bytes := bytes + [cbuf[f]];
      f := (f + 1) % CBUF_SZ;
      n := n + 1;
    }
    GotAll(ring, n, bytes, RingOf(cb, f, r));
  }

  class Device {
    const lbuf: array<char>
    const cbuf: array<char>
    var i: nat
    var f: nat
    var r: nat
    var rstk: seq<Request>
    var sent: seq<Reply>
    ghost var tty: Tty

    ghost predicate Shapes()
      reads this
    {
      lbuf.Length == LBUF_SZ + 1 && cbuf.Length == CBUF_SZ + 1 && f < CBUF_SZ && r < CBUF_SZ && lbuf != cbuf
    }

    ghost predicate Valid()
      reads this, lbuf, cbuf
    {
      && Shapes() && Inv(tty) && LineIn(lbuf[..], i, tty.line)
      && RingOf(cbuf[..], f, r) == tty.ring && rstk == tty.waiting
    }

    /** init_consl */
    constructor ()
      ensures Valid() && tty == Tty(Line("", 0), [], []) && sent == []
    {
      lbuf := new char[LBUF_SZ + 1](_ => NUL);
      cbuf := new char[CBUF_SZ + 1](_ => NUL);
      i, f, r, rstk, sent := 0, 0, 0, [], [];
      tty := Tty(Line("", 0), [], []);
    }

    /** consl_accept on the line buffer. False is the panic "line buffer full". */
    method AcceptChar(ch: char) returns (ok: bool)
      requires Valid() && ch != NUL
      modifies this`i, this`tty, lbuf
      ensures ok == Fits(old(tty), Char(ch))
      ensures ok ==> Valid() && tty == Step(old(tty), Char(ch))
    {
      ok := InsertAt(lbuf, i, ch, tty.line);
      if ok {
        i := i + 1;
        StepKeeps(tty, Char(ch));
        tty := Step(tty, Char(ch));
      }
    }

    /** removec */
    method RemoveChar()
      requires Valid() && i > 0
      modifies this`i, this`tty, lbuf
      ensures Valid() && tty == old(tty).(line := Backspace(old(tty.line)))
    {
      i := i - 1;
      RemoveAt(lbuf, i, tty.line);
      EditKeeps(tty.line, Back);
      tty := tty.(line := Backspace(tty.line));
    }

    /** movl */
    method MoveLeft() returns (moved: bool)
      requires Valid()
      modifies this`i, this`tty
      ensures Valid() && tty == old(tty).(line := Left(old(tty.line))) && moved == (old(i) != 0)
    {
      moved := i != 0;
      if moved { i := i - 1; }
      tty := tty.(line := Left(tty.line));
    }

    /** movr */
    method MoveRight() returns (moved: bool)
      requires Valid()
      modifies this`i, this`tty
      ensures Valid() && tty == old(tty).(line := Right(old(tty.line))) && moved == (old(i) < |old(tty).line.text|)
    {
      NoZeros(lbuf[..], i, tty.line);
      moved := lbuf[i] != NUL;
      if moved { i := i + 1; }
      tty := tty.(line := Right(tty.line));
    }

    /** consl_feed, for the keys that edit the line. */
    method FeedKey(key: Input)
      requires Valid() && (key.Back? || key.Delete? || key.GoLeft? || key.GoRight? || key.Home? || key.End?)
      modifies this`i, this`tty, lbuf
      ensures Valid() && tty == Step(old(tty), key)
    {
      var more;
      match key {
        case Back => if i > 0 { RemoveChar(); }
        case Delete =>
          more := MoveRight();
          if i > 0 { RemoveChar(); }
        case GoLeft => more := MoveLeft();
        case GoRight => more := MoveRight();
        case Home =>
          more := true;
          while more
            invariant Valid() && tty == old(tty).(line := old(tty.line).(cur := i))
            invariant !more ==> i == 0
            decreases i, more
          {
            more := MoveLeft();
          }
        case End =>
          more := true;
          while more
            invariant Valid() && tty == old(tty).(line := old(tty.line).(cur := i))
            invariant !more ==> i == |tty.line.text|
            decreases |tty.line.text| - i, more
          {
            more := MoveRight();
          }
      }
    }

    /** The loop of cook: the line with its terminator goes to the ring. False is the panic "cooked buffer full". */
    method PushLine() returns (ok: bool)
      requires Valid()
      modifies this`r, cbuf
      ensures ok == Fits(tty, Enter)
      ensures ok ==> Shapes() && RingOf(cbuf[..], f, r) == Entered(tty).ring
    {
      ghost var ring, text := tty.ring, tty.line.text;
      NoZeros(lbuf[..], i, tty.line);
      RingShort(cbuf[..], f, r);
      hide RingOf, Inv, LineLen;
      var p := 0;
      var done := false;
      while !done
        invariant Shapes() && p <= |text| + 1 && (done <==> p == |text| + 1)
        invariant forall x :: 0 <= x < |text| ==> lbuf[x] == text[x] && lbuf[x] != NUL
        invariant lbuf[|text|] == NUL
        invariant RingOf(cbuf[..], f, r) == ring + (text + [NUL])[..p] && |ring| + p < CBUF_SZ
        decreases |text| + 1 - p
      {
        var room := PushChar(lbuf[p]);
        if !room { return false; }
        done := lbuf[p] == NUL;
        PushOne(ring, text + [NUL], p);
        p := p + 1;
      }
      assert (text + [NUL])[..p] == text + [NUL];
      assert ring + (text + [NUL]) == ring + text + [NUL];
      ok := true;
    }

    /** One character into the ring; false when it has no room. */
    method PushChar(ch: char) returns (room: bool)
      requires Shapes()
      modifies this`r, cbuf
      ensures Shapes() && room == (|old(RingOf(cbuf[..], f, r))| + 1 < CBUF_SZ)
      ensures room ==> RingOf(cbuf[..], f, r) == old(RingOf(cbuf[..], f, r)) + [ch]
    {
      ghost var b := cbuf[..];
      RingPush(b, f, r, ch);
      RingShort(b, f, r);
      hide RingOf;
      cbuf[r] := ch;
      assert cbuf[..] == b[r := ch];
      r := (r + 1) % CBUF_SZ;
      room := r != f;
    }

    /** read_request; false is the panic "too many read request". */
    method ReadRequest(q: Request) returns (ok: bool)
      requires Valid()
      modifies this`f, this`rstk, this`sent, this`tty
      ensures ok == Fits(old(tty), Read(q))
      ensures ok ==> Valid() && tty == Step(old(tty), Read(q)) && sent == old(sent) + Replies(old(tty), Read(q))
    {
      RingEmpty(cbuf[..], f, r);
      AskMeans(tty, q);
      hide RingOf, LineIn, LineLen, Taken, Leaves, Inv, Step, Replies, Fits, Terminated;
      if f == r {
        if |rstk| == RSTK_SZ { return false; }
        rstk := rstk + [q];
        tty := Step(tty, Read(q));
      } else {
        ServeRequest(q);
      }
      ok := true;
    }

    /** The answer at once. */
    method ServeRequest(q: Request)
      requires Valid() && tty.ring != []
      modifies this`f, this`sent, this`tty
      ensures Fits(old(tty), Read(q))
      ensures Valid() && tty == Step(old(tty), Read(q)) && sent == old(sent) + Replies(old(tty), Read(q))
    {
      hide RingOf, LineIn, LineLen, Taken, Leaves, Inv, Step, Replies, Fits, Terminated;
      AskMeans(tty, q);
      RingEmpty(cbuf[..], f, r);
      var f', bytes := GetCooked(cbuf, f, r, q.count, tty.ring);
      f := f';
      sent := sent + [Reply(q.pid, bytes)];
      tty := Step(tty, Read(q));
    }

    /** cook: the key Enter. */
    method Cook() returns (ok: bool)
      requires Valid()
      modifies this, cbuf, lbuf
      ensures ok == Fits(old(tty), Enter)
      ensures ok ==> Valid() && tty == Step(old(tty), Enter) && sent == old(sent) + Replies(old(tty), Enter)
    {
      hide Inv, LineIn, RingOf, LineLen, Fits, Step, Replies;
      ghost var t := tty;
      ok := PushLine();
      if !ok { return; }
      EnteredOk(t);
      i := 0;
      lbuf[0] := NUL;
      EmptyLine(lbuf[..]);
      tty := Entered(t);
      ok := ServeLast(t);
    }

    /** The end of cook: the read request on top of the stack is made again. */
    method ServeLast(ghost t: Tty) returns (ok: bool)
      requires Valid() && Inv(t) && Fits(t, Enter) && tty == Entered(t)
      modifies this`f, this`rstk, this`sent, this`tty
      ensures ok && Valid() && tty == Step(t, Enter) && sent == old(sent) + Replies(t, Enter)
    {
      hide LineIn, RingOf, LineLen, Taken, Leaves, Inv, Step, Replies, Fits, Entered;
      EnterMeans(t);
      ok := true;
      if |rstk| != 0 {
        var q := rstk[|rstk| - 1];
        rstk := rstk[..|rstk| - 1];
        tty := Popped(tty);
        ok := ReadRequest(q);
      }
    }
  }

  lemma AskMeans(t: Tty, q: Request)
    requires Inv(t)
    ensures Terminated(t.ring) && Fits(t, Read(q)) == (t.ring == [] ==> |t.waiting| < RSTK_SZ)
    ensures |t.waiting| <= RSTK_SZ && (Fits(t, Read(q)) ==> Inv(Step(t, Read(q))))
    ensures t.ring == [] && |t.waiting| < RSTK_SZ ==>
              Step(t, Read(q)) == t.(waiting := t.waiting + [q]) && Replies(t, Read(q)) == []
    ensures t.ring != [] ==>
              && LineLen(t.ring) < |t.ring|
              && Step(t, Read(q)) == t.(ring := Leaves(t.ring, q.count))
              && Replies(t, Read(q)) == [Reply(q.pid, Taken(t.ring, q.count))]
  {
    if t.ring != [] { EndInRing(t.ring); }
    hide LineLen;
    if Fits(t, Read(q)) { StepKeeps(t, Read(q)); }
  }

  /** Enter is: the line into the ring, then the last waiting reader's request once more. */
  lemma EnterMeans(t: Tty)
    requires Inv(t) && Fits(t, Enter)
    ensures var u := Entered(t);
            if u.waiting == [] then Step(t, Enter) == u && Replies(t, Enter) == []
            else
              var v, q := Popped(u), u.waiting[|u.waiting| - 1];
              && Inv(v) && Fits(v, Read(q)) && v.line == u.line && v.ring == u.ring
              && Step(t, Enter) == Step(v, Read(q)) && Replies(t, Enter) == Replies(v, Read(q))
  {
    EnteredOk(t);
    hide LineLen, Taken, Leaves;
  }

  lemma EmptyLine(b: seq<char>)
    requires |b| == LBUF_SZ + 1 && b[0] == NUL
    ensures LineIn(b, 0, Line("", 0))
  {
  }

  lemma PushOne(ring: seq<char>, line: seq<char>, p: nat)
    requires p < |line|
    ensures ring + line[..p] + [line[p]] == ring + line[..p + 1]
  {
  }

  /** n bytes are out, and the rest is left. */
  ghost predicate Got(ring: seq<char>, n: nat, bytes: seq<char>, rest: seq<char>) {
    n <= |ring| && bytes == ring[..n] && rest == ring[n..]
  }

  lemma StartGot(ring: seq<char>)
    ensures Got(ring, 0, [], ring)
  {
  }

  lemma GotStep(ring: seq<char>, n: nat, bytes: seq<char>, rest: seq<char>)
    requires Got(ring, n, bytes, rest) && n <= LineLen(ring) < |ring|
    ensures rest != [] && Got(ring, n + 1, bytes + [rest[0]], rest[1..]) && (rest[0] == NUL <==> n == LineLen(ring))
  {
    LineLenMeans(ring);
    hide LineLen;
    assert ring[..n + 1] == ring[..n] + [ring[n]];
  }

  lemma GotLine(ring: seq<char>, n: nat, bytes: seq<char>, rest: seq<char>, count: int)
    requires Got(ring, n, bytes, rest) && n == LineLen(ring) < |ring| && (count < 0 || n < count)
    ensures bytes == Taken(ring, count) && rest != [] && rest[1..] == Leaves(ring, count)
  {
    hide LineLen;
  }

  lemma GotAll(ring: seq<char>, n: nat, bytes: seq<char>, rest: seq<char>)
    requires Got(ring, n, bytes, rest) && n <= LineLen(ring) < |ring|
    ensures bytes == Taken(ring, n) && rest == Leaves(ring, n)
  {
    hide LineLen;
  }
}

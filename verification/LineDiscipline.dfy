/** The console's line discipline on values: a line being edited, the ring of entered lines, and readers waiting. */
module LineDiscipline {

  const LBUF_SZ: nat := 256
  const CBUF_SZ: nat := 1024
  const RSTK_SZ: nat := 16
  const NUL: char := '\0'

  // The editor.

  datatype Line = Line(text: string, cur: nat)

  predicate LineOk(l: Line) { l.cur <= |l.text| < LBUF_SZ && NUL !in l.text }

  function Accept(l: Line, ch: char): Line
    requires l.cur <= |l.text|
  {
    Line(l.text[..l.cur] + [ch] + l.text[l.cur..], l.cur + 1)
  }

  function Backspace(l: Line): Line
    requires l.cur <= |l.text|
  {
    if l.cur == 0 then l else Line(l.text[..l.cur - 1] + l.text[l.cur..], l.cur - 1)
  }

  function Left(l: Line): Line { if l.cur == 0 then l else l.(cur := l.cur - 1) }

  function Right(l: Line): Line { if l.cur < |l.text| then l.(cur := l.cur + 1) else l }

  // The ring of entered lines.

  /** Up to the first terminator. */
  function LineLen(ring: seq<char>): (n: nat)
    ensures n <= |ring|
  {
    if ring == [] || ring[0] == NUL then 0 else 1 + LineLen(ring[1..])
  }

  lemma {:induction false} LineLenMeans(ring: seq<char>)
    ensures var n := LineLen(ring);
            (forall i :: 0 <= i < n ==> ring[i] != NUL) && (n < |ring| ==> ring[n] == NUL)
  {
    if ring != [] && ring[0] != NUL {
      LineLenMeans(ring[1..]);
      forall i | 0 <= i < LineLen(ring) ensures ring[i] != NUL {
        if i > 0 { assert ring[i] == ring[1..][i - 1]; }
      }
    }
  }

  /** What one read of at most `count` bytes delivers: the rest of the first line, or its first bytes. A negative count
      is no limit, since it is counted down to zero. */
  function Taken(ring: seq<char>, count: int): seq<char> {
    ring[..if 0 <= count <= LineLen(ring) then count else LineLen(ring)]
  }

  /** What it leaves; the terminator goes with a read that asks for more than the line. */
  function Leaves(ring: seq<char>, count: int): seq<char>
    requires ring != [] ==> LineLen(ring) < |ring|
  {
    if ring == [] then [] else ring[if 0 <= count <= LineLen(ring) then count else LineLen(ring) + 1..]
  }

  /** Every line in the ring is terminated. */
  predicate Terminated(ring: seq<char>) { ring != [] ==> ring[|ring| - 1] == NUL }

  /** So a read always finds the end of its line before the end of the ring. */
  lemma EndInRing(ring: seq<char>)
    requires Terminated(ring) && ring != []
    ensures LineLen(ring) < |ring|
  {
    LineLenMeans(ring);
  }

  function NonZero(s: seq<char>): seq<char> {
    if s == [] then [] else (if s[0] == NUL then [] else [s[0]]) + NonZero(s[1..])
  }

  lemma {:induction false} NonZeroConcat(a: seq<char>, b: seq<char>)
    ensures NonZero(a + b) == NonZero(a) + NonZero(b)
  {
    if a == [] {
      assert a + b == b;
    } else {
      assert (a + b)[1..] == a[1..] + b;
      NonZeroConcat(a[1..], b);
    }
  }

  lemma {:induction false} NonZeroText(a: seq<char>)
    requires NUL !in a
    ensures NonZero(a) == a
  {
    if a != [] { NonZeroText(a[1..]); }
  }

  /** A read stays within one line, within its count if that is not negative, and leaves whole lines behind it. */
  lemma TakeShape(ring: seq<char>, count: int)
    requires Terminated(ring)
    ensures ring != [] ==> LineLen(ring) < |ring|
    ensures Terminated(Leaves(ring, count)) && NUL !in Taken(ring, count)
    ensures |Taken(ring, count)| <= count <==> count >= 0
  {
    LineLenMeans(ring);
    if ring != [] { EndInRing(ring); }
    hide LineLen;
  }

  /** What a read of `count` bytes gets from a ring: the bytes up to its count, or up to the end of the line. */
  ghost predicate Front(bytes: seq<char>, count: int, ring: seq<char>) {
    bytes <= ring && NUL !in bytes && (|bytes| == count || (|bytes| < |ring| && ring[|bytes|] == NUL))
  }

  lemma TakeExact(ring: seq<char>, count: int)
    requires Terminated(ring) && ring != []
    ensures LineLen(ring) < |ring|
    ensures Front(Taken(ring, count), count, ring) && (0 <= count ==> |Taken(ring, count)| <= count)
    ensures ring == Taken(ring, count) + Sep(Taken(ring, count), count) + Leaves(ring, count)
  {
    hide LineLen, Terminated;
    EndInRing(ring);
    LineLenMeans(ring);
    var n := LineLen(ring);
    if 0 <= count <= n {
      assert ring == ring[..count] + [] + ring[count..];
    } else {
      assert ring == ring[..n] + [NUL] + ring[n + 1..];
    }
  }

  /** The terminator behind what was read, unless the count ended the read. */
  function Sep(bytes: seq<char>, count: int): seq<char> { if |bytes| == count then [] else [NUL] }

  /** A read takes bytes from the front of what was entered, and loses none. */
  lemma TakeConserves(ring: seq<char>, count: int)
    requires Terminated(ring)
    ensures ring != [] ==> LineLen(ring) < |ring|
    ensures NonZero(ring) == Taken(ring, count) + NonZero(Leaves(ring, count))
  {
    hide Terminated, NonZero;
    if ring == [] {
      assert Taken(ring, count) == [] == Leaves(ring, count);
      assert [] + NonZero([]) == NonZero([]);
    } else {
      TakeExact(ring, count);
      hide LineLen, Taken, Leaves, Sep;
      NonZeroParts(Taken(ring, count), count, Leaves(ring, count));
    }
  }

  lemma NonZeroParts(bytes: seq<char>, count: int, rest: seq<char>)
    requires NUL !in bytes
    ensures NonZero(bytes + Sep(bytes, count) + rest) == bytes + NonZero(rest)
  {
    assert NonZero([]) == [];
    assert NonZero([NUL]) == [];
    hide NonZero;
    NonZeroText(bytes);
    NonZeroConcat(bytes + Sep(bytes, count), rest);
    NonZeroConcat(bytes, Sep(bytes, count));
    assert bytes + [] == bytes;
  }

  // The whole discipline.

  datatype Request = Request(pid: nat, count: int)
  datatype Reply = Reply(pid: nat, bytes: seq<char>)

  datatype Tty = Tty(line: Line, ring: seq<char>, waiting: seq<Request>)

  datatype Input =
    | Char(ch: char) | Enter | Back | Delete | GoLeft | GoRight | Home | End
    | Read(req: Request)

  /** The keys' effect on the line. Delete at the end of the line finds nothing to step over and works as Back. */
  function Edit(l: Line, key: Input): Line
    requires l.cur <= |l.text|
  {
    match key
    case Char(ch) => Accept(l, ch)
    case Enter => Line("", 0)
    case Back => Backspace(l)
    case Delete => Backspace(Right(l))
    case GoLeft => Left(l)
    case GoRight => Right(l)
    case Home => l.(cur := 0)
    case End => l.(cur := |l.text|)
    case Read(_) => l
  }

  /** The kernel panics when a buffer is full. */
  predicate Fits(t: Tty, key: Input) {
    match key
    case Char(ch) => ch != NUL && |t.line.text| + 1 < LBUF_SZ
    case Enter => |t.ring| + |t.line.text| + 1 < CBUF_SZ
    case Read(_) => t.ring == [] ==> |t.waiting| < RSTK_SZ
    case _ => true
  }

  ghost predicate Inv(t: Tty) {
    LineOk(t.line) && Terminated(t.ring) && |t.ring| < CBUF_SZ && |t.waiting| <= RSTK_SZ
  }

  /** read_request */
  function Ask(t: Tty, q: Request): Tty
    requires t.ring != [] ==> LineLen(t.ring) < |t.ring|
  {
    if t.ring == [] then t.(waiting := t.waiting + [q]) else t.(ring := Leaves(t.ring, q.count))
  }

  function Answer(t: Tty, q: Request): seq<Reply> {
    if t.ring == [] then [] else [Reply(q.pid, Taken(t.ring, q.count))]
  }

  /** cook: the line goes into the ring, and the reader who asked last is served. */
  function Entered(t: Tty): Tty {
    t.(line := Line("", 0), ring := t.ring + t.line.text + [NUL])
  }

  function Popped(t: Tty): Tty
    requires t.waiting != []
  {
    t.(waiting := t.waiting[..|t.waiting| - 1])
  }

  lemma EnteredOk(t: Tty)
    requires Inv(t) && Fits(t, Enter)
    ensures Inv(Entered(t)) && LineLen(Entered(t).ring) < |Entered(t).ring|
  {
    EndInRing(Entered(t).ring);
  }

  ghost function Step(t: Tty, key: Input): Tty
    requires Inv(t) && Fits(t, key)
  {
    match key
    case Read(q) => if t.ring == [] then Ask(t, q) else EndInRing(t.ring); Ask(t, q)
    case Enter =>
      EnteredOk(t);
      var u := Entered(t);
      if u.waiting == [] then u else Ask(Popped(u), u.waiting[|u.waiting| - 1])
    case _ => t.(line := Edit(t.line, key))
  }

  function Replies(t: Tty, key: Input): seq<Reply> {
    match key
    case Read(q) => Answer(t, q)
    case Enter =>
      var u := Entered(t);
      if u.waiting == [] then [] else Answer(Popped(u), u.waiting[|u.waiting| - 1])
    case _ => []
  }

  lemma EditKeeps(l: Line, key: Input)
    requires LineOk(l) && (key.Char? ==> key.ch != NUL && |l.text| + 1 < LBUF_SZ)
    ensures LineOk(Edit(l, key))
  {
  }

  lemma AskKeeps(t: Tty, q: Request)
    requires Inv(t) && Fits(t, Read(q))
    ensures t.ring != [] ==> LineLen(t.ring) < |t.ring|
    ensures Inv(Ask(t, q))
  {
    TakeShape(t.ring, q.count);
    hide LineLen, Terminated, LineOk, NonZero, Taken;
  }

  lemma StepKeeps(t: Tty, key: Input)
    requires Inv(t) && Fits(t, key)
    ensures Inv(Step(t, key))
  {
    match key {
      case Read(q) => AskKeeps(t, q);
      case Enter =>
        EnteredOk(t);
        hide LineLen, Terminated, LineOk, Leaves;
        var u := Entered(t);
        if u.waiting != [] { AskKeeps(Popped(u), u.waiting[|u.waiting| - 1]); }
      case _ =>
        EditKeeps(t.line, key);
        hide LineLen, Terminated, LineOk, Edit;
    }
  }

  /** The bytes of the replies, in order. */
  function Bytes(rs: seq<Reply>): seq<char> {
    if rs == [] then [] else Bytes(rs[..|rs| - 1]) + rs[|rs| - 1].bytes
  }

  function NewText(t: Tty, key: Input): string { if key == Enter then t.line.text else "" }

  /** In one step: what is delivered and what stays in the ring is what was there and what was entered. */
  lemma StepConserves(t: Tty, key: Input)
    requires Inv(t) && Fits(t, key)
    ensures Bytes(Replies(t, key)) + NonZero(Step(t, key).ring) == NonZero(t.ring) + NewText(t, key)
  {
    hide LineLen, NonZero, Taken, Leaves;
    assert Bytes([]) == [];
    assert forall r: Reply :: Bytes([r]) == r.bytes;
    assert NonZero(t.ring) + "" == NonZero(t.ring);
    match key {
      case Read(q) => TakeConserves(t.ring, q.count);
      case Enter =>
        EnteredOk(t);
        var u := Entered(t);
        EnteredText(t.ring, t.line.text);
        if t.waiting != [] { TakeConserves(u.ring, t.waiting[|t.waiting| - 1].count); }
      case _ =>
    }
  }

  lemma EnteredText(ring: seq<char>, text: string)
    requires NUL !in text
    ensures NonZero(ring + text + [NUL]) == NonZero(ring) + text
  {
    NonZeroConcat(ring + text, [NUL]);
    NonZeroConcat(ring, text);
    NonZeroText(text);
    assert NonZero([NUL]) == [];
  }

  // Whole runs.

  ghost predicate Feasible(t: Tty, keys: seq<Input>)
    decreases |keys|, 0
  {
    Inv(t) && (keys == [] || (Feasible(t, keys[..|keys| - 1]) && Fits(Run(t, keys[..|keys| - 1]), keys[|keys| - 1])))
  }

  ghost function Run(t: Tty, keys: seq<Input>): (u: Tty)
    requires Feasible(t, keys)
    ensures Inv(u)
    decreases |keys|, 1
  {
    if keys == [] then t
    else
      StepKeeps(Run(t, keys[..|keys| - 1]), keys[|keys| - 1]);
      Step(Run(t, keys[..|keys| - 1]), keys[|keys| - 1])
  }

  /** All bytes delivered over a run. */
  ghost function Delivered(t: Tty, keys: seq<Input>): seq<char>
    requires Feasible(t, keys)
  {
    if keys == [] then []
    else
      var pre := keys[..|keys| - 1];
      Delivered(t, pre) + Bytes(Replies(Run(t, pre), keys[|keys| - 1]))
  }

  /** The line and the entered text as the editor alone gives them, whatever is read meanwhile. */
  ghost function Typed(l: Line, keys: seq<Input>): (r: Line)
    requires l.cur <= |l.text|
    ensures r.cur <= |r.text|
  {
    if keys == [] then l else Edit(Typed(l, keys[..|keys| - 1]), keys[|keys| - 1])
  }

  ghost function AllLines(l: Line, keys: seq<Input>): string
    requires l.cur <= |l.text|
  {
    if keys == [] then ""
    else
      var pre := keys[..|keys| - 1];
      AllLines(l, pre) + (if keys[|keys| - 1] == Enter then Typed(l, pre).text else "")
  }

  lemma {:induction false} RunTypes(t: Tty, keys: seq<Input>)
    requires Feasible(t, keys)
    ensures Run(t, keys).line == Typed(t.line, keys)
  {
    hide LineLen, Taken, Leaves;
    if keys != [] { RunTypes(t, keys[..|keys| - 1]); }
  }

  /** Over every run: the bytes delivered, followed by the nonzero bytes still in the ring, are the lines entered, one
      after the other. */
  lemma {:induction false} RunConserves(t: Tty, keys: seq<Input>)
    requires Feasible(t, keys) && t.ring == []
    ensures Delivered(t, keys) + NonZero(Run(t, keys).ring) == AllLines(t.line, keys)
  {
    if keys != [] {
      var pre, key := keys[..|keys| - 1], keys[|keys| - 1];
      RunConserves(t, pre);
      RunTypes(t, pre);
      hide NonZero, Replies, Step, Bytes;
      var u := Run(t, pre);
      StepConserves(u, key);
      var a, b, c, d := Delivered(t, pre), Bytes(Replies(u, key)), NonZero(Step(u, key).ring), NonZero(u.ring);
      Regroup(a, b, c, d, NewText(u, key));
    }
  }

  // Who is answered, and when.

  function Made(keys: seq<Input>): seq<Request> {
    if keys == [] then []
    else
      var key := keys[|keys| - 1];
      Made(keys[..|keys| - 1]) + (if key.Read? then [key.req] else [])
  }

  /** The request that a step has to answer: the one made, when a line is there, and at Enter the one stacked last. */
  function Due(t: Tty, key: Input): seq<Request> {
    match key
    case Read(q) => if t.ring == [] then [] else [q]
    case Enter => if t.waiting == [] then [] else [t.waiting[|t.waiting| - 1]]
    case _ => []
  }

  /** Each reply goes to its request's process, with bytes from the front of the first line up to the count. */
  ghost predicate Answers(rs: seq<Reply>, qs: seq<Request>, ring: seq<char>) {
    |rs| == |qs| && forall i :: 0 <= i < |rs| ==> rs[i].pid == qs[i].pid && Front(rs[i].bytes, qs[i].count, ring)
  }

  /** In one step the due request is answered, and it alone: nobody else's request is lost or answered. */
  lemma StepAnswers(t: Tty, key: Input)
    requires Inv(t) && Fits(t, key)
    ensures Answers(Replies(t, key), Due(t, key), t.ring + (if key == Enter then t.line.text + [NUL] else []))
    ensures multiset(Made([key])) + multiset(t.waiting) == multiset(Due(t, key)) + multiset(Step(t, key).waiting)
    ensures Step(t, key).waiting <= t.waiting || t.waiting <= Step(t, key).waiting
  {
    MadeNow(key);
    match key {
      case Read(q) => ReadAnswers(t, q);
      case Enter => EnterAnswers(t);
      case _ => hide Made, Inv, Fits, Edit;
    }
  }

  lemma ReadAnswers(t: Tty, q: Request)
    requires Inv(t) && Fits(t, Read(q))
    ensures Answers(Replies(t, Read(q)), Due(t, Read(q)), t.ring + [])
    ensures Step(t, Read(q)).waiting == if t.ring == [] then t.waiting + [q] else t.waiting
  {
    assert t.ring + [] == t.ring;
    if t.ring != [] { RingAnswers(t, q); }
    hide LineLen, Front, Taken, Leaves, LineOk, Terminated;
  }

  lemma EnterAnswers(t: Tty)
    requires Inv(t) && Fits(t, Enter)
    ensures Answers(Replies(t, Enter), Due(t, Enter), t.ring + (t.line.text + [NUL]))
    ensures if t.waiting == [] then Step(t, Enter).waiting == []
            else Step(t, Enter).waiting == t.waiting[..|t.waiting| - 1] &&
                 multiset(t.waiting) == multiset(Due(t, Enter)) + multiset(Step(t, Enter).waiting)
  {
    EnteredOk(t);
    assert Entered(t).ring == t.ring + (t.line.text + [NUL]);
    if t.waiting != [] {
      var n := |t.waiting| - 1;
      RingAnswers(Popped(Entered(t)), t.waiting[n]);
      assert t.waiting == t.waiting[..n] + [t.waiting[n]];
    }
    hide LineLen, Front, Taken, Leaves, LineOk, Terminated;
  }

  lemma MadeNow(key: Input)
    ensures Made([key]) == if key.Read? then [key.req] else []
  {
    assert Made([]) == [];
  }

  lemma RingAnswers(t: Tty, q: Request)
    requires Terminated(t.ring) && t.ring != []
    ensures Answers(Answer(t, q), [q], t.ring)
  {
    hide LineLen, Front, Taken, Leaves;
    TakeExact(t.ring, q.count);
  }

  /** All replies of a run, and the requests they answer. */
  ghost function Sent(t: Tty, keys: seq<Input>): seq<Reply>
    requires Feasible(t, keys)
  {
    if keys == [] then []
    else
      var pre := keys[..|keys| - 1];
      Sent(t, pre) + Replies(Run(t, pre), keys[|keys| - 1])
  }

  ghost function Served(t: Tty, keys: seq<Input>): seq<Request>
    requires Feasible(t, keys)
  {
    if keys == [] then []
    else
      var pre := keys[..|keys| - 1];
      Served(t, pre) + Due(Run(t, pre), keys[|keys| - 1])
  }

  /** Over every run the requests made are the requests answered and those still waiting, each of them once; and the
      replies go to their processes in the order in which the requests fell due. */
  lemma {:induction false} RunAnswers(t: Tty, keys: seq<Input>)
    requires Feasible(t, keys)
    ensures multiset(Made(keys)) + multiset(t.waiting) ==
            multiset(Served(t, keys)) + multiset(Run(t, keys).waiting)
    ensures Pids(Sent(t, keys), Served(t, keys))
  {
    if keys != [] {
      var pre, key := keys[..|keys| - 1], keys[|keys| - 1];
      RunAnswers(t, pre);
      var u := Run(t, pre);
      hide Replies, Step, Due, Front, Inv, Made, Pids, Fits;
      StepAnswers(u, key);
      MadeOne(keys);
      PidsJoin(Sent(t, pre), Replies(u, key), Served(t, pre), Due(u, key));
      Settle(Made(pre), Made([key]), t.waiting, Served(t, pre), Due(u, key), u.waiting, Step(u, key).waiting);
    }
  }

  ghost predicate Pids(rs: seq<Reply>, qs: seq<Request>) {
    |rs| == |qs| && forall i :: 0 <= i < |rs| ==> rs[i].pid == qs[i].pid
  }

  lemma PidsJoin(a: seq<Reply>, b: seq<Reply>, c: seq<Request>, d: seq<Request>)
    requires Pids(a, c) && |b| == |d| && forall i :: 0 <= i < |b| ==> b[i].pid == d[i].pid
    ensures Pids(a + b, c + d)
  {
  }

  lemma Settle(made: seq<Request>, one: seq<Request>, w: seq<Request>, served: seq<Request>, due: seq<Request>,
               u: seq<Request>, v: seq<Request>)
    requires multiset(made) + multiset(w) == multiset(served) + multiset(u)
    requires multiset(one) + multiset(u) == multiset(due) + multiset(v)
    ensures multiset(made + one) + multiset(w) == multiset(served + due) + multiset(v)
  {
    var m, o, a, s, d, b, c :=
      multiset(made), multiset(one), multiset(w), multiset(served), multiset(due), multiset(u), multiset(v);
    assert (m + o) + a == (m + a) + o == (s + b) + o == s + (o + b) == s + (d + c) == (s + d) + c;
  }

  lemma MadeOne(keys: seq<Input>)
    requires keys != []
    ensures Made(keys) == Made(keys[..|keys| - 1]) + Made([keys[|keys| - 1]])
  {
    assert [keys[|keys| - 1]][..0] == [] && Made([]) == [];
  }

  lemma Regroup(a: seq<char>, b: seq<char>, c: seq<char>, d: seq<char>, e: seq<char>)
    requires b + c == d + e
    ensures (a + b) + c == (a + d) + e
  {
    assert (a + b) + c == a + (b + c);
    assert (a + d) + e == a + (d + e);
  }

  // The editor's own laws.

  /** Typing and rubbing out cancel; so do stepping right and left. */
  lemma TypeThenRubOut(l: Line, ch: char)
    requires l.cur <= |l.text|
    ensures Backspace(Accept(l, ch)) == l
    ensures l.cur < |l.text| ==> Left(Right(l)) == l
  {
    var a := Accept(l, ch);
    assert a.text[..l.cur] == l.text[..l.cur] && a.text[l.cur + 1..] == l.text[l.cur..];
  }

  /** Delete removes the character under the cursor, except at the end of the line. */
  lemma DeleteExactly(l: Line)
    requires l.cur <= |l.text|
    ensures Edit(l, Delete) ==
            Line(l.text[..l.cur] + (if l.cur < |l.text| then l.text[l.cur + 1..] else ""), l.cur) <==>
            l.cur < |l.text| || l.text == ""
  {
  }

  function Keys(s: string): seq<Input> { seq(|s|, i requires 0 <= i < |s| => Char(s[i])) }

  /** A typed string stands at the cursor, in front of what stood behind it. */
  lemma {:induction false} TypedText(a: string, s: string, b: string)
    ensures Typed(Line(a + b, |a|), Keys(s)) == Line(a + s + b, |a| + |s|)
  {
    if s == "" {
      assert a + s + b == a + b;
    } else {
      var pre := s[..|s| - 1];
      TypedText(a, pre, b);
      assert Keys(s)[..|s| - 1] == Keys(pre);
      assert s == pre + [s[|s| - 1]];
      var l := Line(a + pre + b, |a| + |pre|);
      assert l.text[..l.cur] == a + pre && l.text[l.cur..] == b;
      assert (a + pre) + [s[|s| - 1]] + b == a + s + b;
    }
  }

  lemma {:induction false} TypedOn(l: Line, a: seq<Input>, b: seq<Input>)
    requires l.cur <= |l.text|
    ensures Typed(l, a + b) == Typed(Typed(l, a), b)
  {
    if b == [] {
      assert a + b == a;
    } else {
      TypedOn(l, a, b[..|b| - 1]);
      hide Edit;
      assert (a + b)[..|a + b| - 1] == a + b[..|b| - 1];
    }
  }

  /** After Home a string goes in front of the line, and after End behind it. */
  lemma HomeAndEnd(l: Line, s: string)
    requires l.cur <= |l.text|
    ensures Typed(l, [Home] + Keys(s)) == Line(s + l.text, |s|)
    ensures Typed(l, [End] + Keys(s)) == Line(l.text + s, |l.text| + |s|)
  {
    assert [Home][..0] == [] == [End][..0] && Typed(l, []) == l;
    assert Typed(l, [Home]) == Line(l.text, 0) && Typed(l, [End]) == Line(l.text, |l.text|);
    hide Typed, Edit, Keys;
    TypedOn(l, [Home], Keys(s));
    TypedOn(l, [End], Keys(s));
    TypedText("", s, l.text);
    TypedText(l.text, s, "");
    assert "" + l.text == l.text == l.text + "" && "" + s == s && l.text + s + "" == l.text + s;
  }

  lemma {:induction false} NoMoreLines(l: Line, a: seq<Input>, b: seq<Input>)
    requires l.cur <= |l.text| && Enter !in b
    ensures AllLines(l, a + b) == AllLines(l, a)
  {
    if b == [] {
      assert a + b == a;
    } else {
      NoMoreLines(l, a, b[..|b| - 1]);
      assert (a + b)[..|a + b| - 1] == a + b[..|b| - 1];
    }
  }

  /** s, Home, t and Enter enter the line t + s. */
  lemma HomeEnters(s: string, t: string)
    ensures AllLines(Line("", 0), Keys(s) + ([Home] + Keys(t)) + [Enter]) == t + s
  {
    hide Typed, Edit;
    var l, keys := Line("", 0), Keys(s) + ([Home] + Keys(t));
    TypedText("", s, "");
    assert "" + s + "" == s && "" + "" == "";
    TypedOn(l, Keys(s), [Home] + Keys(t));
    HomeAndEnd(Line(s, |s|), t);
    NoMoreLines(l, [], keys);
    assert [] + keys == keys && AllLines(l, []) == "";
    assert (keys + [Enter])[..|keys|] == keys;
    hide Keys, AllLines;
  }

  function Lines(ls: seq<string>): seq<Input> {
    if ls == [] then [] else Lines(ls[..|ls| - 1]) + Keys(ls[|ls| - 1]) + [Enter]
  }

  function Concat(ls: seq<string>): string {
    if ls == [] then "" else Concat(ls[..|ls| - 1]) + ls[|ls| - 1]
  }

  /** Every line starts afresh: any number of lines typed are the lines entered. */
  lemma {:induction false} LinesEntered(ls: seq<string>)
    ensures Typed(Line("", 0), Lines(ls)) == Line("", 0) && AllLines(Line("", 0), Lines(ls)) == Concat(ls)
  {
    if ls != [] {
      var l, pre, s := Line("", 0), Lines(ls[..|ls| - 1]), ls[|ls| - 1];
      LinesEntered(ls[..|ls| - 1]);
      TypedText("", s, "");
      assert "" + s + "" == s && "" + "" == "";
      TypedOn(l, pre, Keys(s));
      NoMoreLines(l, pre, Keys(s));
      assert Lines(ls) == pre + Keys(s) + [Enter];
      var keys := pre + Keys(s);
      assert (keys + [Enter])[..|keys|] == keys;
      hide Keys, Lines;
    }
  }
}

/** The shell's convert_to_full_path: joining a path to the current directory in a character buffer. A directory is
    the sequence of the names on the way to it. */
module ShellPath {
  import opened Wrappers

  const SIZE: nat := 256
  const NUL: char := '\0'

  type Path = seq<string>

  predicate Name(c: string) { '/' !in c && NUL !in c }

  /** Names hold no slash; an empty name never comes first. */
  predicate Good(ds: Path) {
    (forall i :: 0 <= i < |ds| ==> Name(ds[i])) && (ds != [] ==> ds[0] != "")
  }

  function Below(ds: Path): string {
    if ds == [] then "" else Below(ds[..|ds| - 1]) + "/" + ds[|ds| - 1]
  }

  /** The string for a directory. */
  function Render(ds: Path): (s: string)
    ensures |s| > 0
  {
    if ds == [] then "/" else Below(ds)
  }

  /** What one component does: ".." goes up (the root stays the root), "." stays, a name goes down. An empty component
      is dropped at the root, but taken for a name anywhere else. */
  function Step(ds: Path, c: string): (r: Path) {
    if c == ".." then (if ds == [] then [] else ds[..|ds| - 1])
    else if c == "." then ds
    else if c == "" && ds == [] then []
    else ds + [c]
  }

  function Walk(ds: Path, cs: seq<string>): Path
    decreases |cs|
  {
    if cs == [] then ds else Walk(Step(ds, cs[0]), cs[1..])
  }

  /** The components from here on; `cur` is the part of the current one already read. One slash at the very end does
      not start another component. */
  function Parse(cur: string, rest: string): (cs: seq<string>)
    ensures |cs| > 0
    decreases |rest|
  {
    if rest == "" || rest == "/" then [cur]
    else if rest[0] == '/' then [cur] + Parse("", rest[1..])
    else Parse(cur + [rest[0]], rest[1..])
  }

  /** The whole conversion: a leading slash starts at the root, no path at all means the current directory. */
  function Convert(ds: Path, p: string): Path {
    if p != "" && p[0] == '/' then Walk([], Parse("", p[1..])) else Walk(ds, Parse("", p))
  }

  lemma StepGood(ds: Path, c: string)
    requires Good(ds) && Name(c)
    ensures Good(Step(ds, c))
  {
  }

  lemma {:induction false} WalkGood(ds: Path, cs: seq<string>)
    requires Good(ds) && forall i :: 0 <= i < |cs| ==> Name(cs[i])
    ensures Good(Walk(ds, cs))
    decreases |cs|
  {
    if cs != [] {
      StepGood(ds, cs[0]);
      WalkGood(Step(ds, cs[0]), cs[1..]);
    }
  }

  lemma {:induction false} ParseNames(cur: string, rest: string)
    requires Name(cur) && NUL !in rest
    ensures forall i :: 0 <= i < |Parse(cur, rest)| ==> Name(Parse(cur, rest)[i])
    decreases |rest|
  {
    if rest == "" || rest == "/" {
    } else if rest[0] == '/' {
      ParseNames("", rest[1..]);
    } else {
      ParseNames(cur + [rest[0]], rest[1..]);
    }
  }

  /** Converting leaves a good directory behind, so conversions can be chained. */
  lemma ConvertGood(ds: Path, p: string)
    requires Good(ds) && NUL !in p
    ensures Good(Convert(ds, p))
  {
    if p != "" && p[0] == '/' {
      ParseNames("", p[1..]);
      WalkGood([], Parse("", p[1..]));
    } else {
      ParseNames("", p);
      WalkGood(ds, Parse("", p));
    }
  }

  // Composition.

  lemma {:induction false} WalkConcat(ds: Path, cs: seq<string>, cs': seq<string>)
    ensures Walk(ds, cs + cs') == Walk(Walk(ds, cs), cs')
    decreases |cs|
  {
    if cs == [] {
      assert cs + cs' == cs';
    } else {
      assert (cs + cs')[1..] == cs[1..] + cs';
      WalkConcat(Step(ds, cs[0]), cs[1..], cs');
    }
  }

  lemma {:induction false} ParseJoin(cur: string, p: string, q: string)
    requires q != "" && (p != "" ==> p[|p| - 1] != '/')
    ensures Parse(cur, p + "/" + q) == Parse(cur, p) + Parse("", q)
    decreases |p|
  {
    var s := p + "/" + q;
    if p == "" {
      assert s == "/" + q && s[1..] == q;
    } else {
      assert s[0] == p[0] && s[1..] == p[1..] + "/" + q;
      if p[0] == '/' {
        ParseJoin("", p[1..], q);
      } else {
        ParseJoin(cur + [p[0]], p[1..], q);
      }
    }
  }

  /** Converting p/q is converting q from where p leads. */
  lemma Compose(ds: Path, p: string, q: string)
    requires q != "" && q[0] != '/' && p != "" && p[|p| - 1] != '/'
    ensures Convert(ds, p + "/" + q) == Convert(Convert(ds, p), q)
  {
    var s := p + "/" + q;
    assert s[0] == p[0];
    if p[0] == '/' {
      assert s[1..] == p[1..] + "/" + q;
      ParseJoin("", p[1..], q);
      WalkConcat([], Parse("", p[1..]), Parse("", q));
    } else {
      ParseJoin("", p, q);
      WalkConcat(ds, Parse("", p), Parse("", q));
    }
  }

  /** Cutting a path at its slashes: the components hold none, and joined by slashes they are the path again, but for
      one slash at the very end. */
  function Joined(cs: seq<string>): string
    decreases |cs|
  {
    if cs == [] then "" else if |cs| == 1 then cs[0] else cs[0] + "/" + Joined(cs[1..])
  }

  function Trimmed(p: string): string { if p != "" && p[|p| - 1] == '/' then p[..|p| - 1] else p }

  lemma {:induction false} ParseCuts(cur: string, rest: string)
    requires '/' !in cur
    ensures forall i :: 0 <= i < |Parse(cur, rest)| ==> '/' !in Parse(cur, rest)[i]
    ensures Joined(Parse(cur, rest)) == cur + Trimmed(rest)
    decreases |rest|
  {
    if rest == "" || rest == "/" {
      assert cur + "" == cur;
    } else if rest[0] == '/' {
      ParseCuts("", rest[1..]);
      assert Parse(cur, rest)[1..] == Parse("", rest[1..]);
      assert cur + Trimmed(rest) == cur + "/" + ("" + Trimmed(rest[1..]));
    } else {
      ParseCuts(cur + [rest[0]], rest[1..]);
      assert cur + Trimmed(rest) == cur + [rest[0]] + Trimmed(rest[1..]);
    }
  }

  lemma {:induction false} ParseTrailing(cur: string, p: string)
    requires p != "" ==> p[|p| - 1] != '/'
    ensures Parse(cur, p + "/") == Parse(cur, p)
    decreases |p|
  {
    var s := p + "/";
    if p != "" {
      assert s[0] == p[0] && s[1..] == p[1..] + "/";
      ParseTrailing(if p[0] == '/' then "" else cur + [p[0]], p[1..]);
    }
  }

  /** A slash behind a path makes no difference. */
  lemma TrailingSlash(ds: Path, p: string)
    requires p != "" && p[|p| - 1] != '/'
    ensures Convert(ds, p + "/") == Convert(ds, p)
  {
    assert (p + "/")[1..] == p[1..] + "/";
    ParseTrailing("", p);
    ParseTrailing("", p[1..]);
  }

  lemma OneComponent(ds: Path, c: string)
    requires Name(c)
    ensures Convert(ds, c) == Step(ds, c)
  {
    ParseName("", c);
    assert "" + c == c && [c][1..] == [];
    assert Walk(ds, [c]) == Walk(Step(ds, c), []);
    assert c != "" ==> c[0] in c;
    hide Parse, Step;
  }

  /** A name leads down, and ".." from there back up; at the root it leads nowhere. */
  lemma DownAndUp(ds: Path, c: string)
    requires Name(c) && c != "" && c != "." && c != ".."
    ensures Convert(ds, c) == ds + [c] && Convert(ds, c + "/..") == ds && Convert(ds, ".") == ds
    ensures Convert([], "..") == []
  {
    OneComponent(ds, c);
    OneComponent(ds, ".");
    OneComponent([], "..");
    OneComponent(ds + [c], "..");
    hide Convert;
    assert c[|c| - 1] in c && c + "/" + ".." == c + "/..";
    Compose(ds, c, "..");
    assert (ds + [c])[..|ds|] == ds;
  }

  // The intended reading of paths, and where the code departs from it.

  function Intended(ds: Path, c: string): Path {
    if c == ".." then (if ds == [] then [] else ds[..|ds| - 1])
    else if c == "." || c == "" then ds
    else ds + [c]
  }

  function WalkIntended(ds: Path, cs: seq<string>): Path
    decreases |cs|
  {
    if cs == [] then ds else WalkIntended(Intended(ds, cs[0]), cs[1..])
  }

  /** No empty component is met away from the root. */
  predicate NoStray(ds: Path, cs: seq<string>)
    decreases |cs|
  {
    cs == [] || ((cs[0] == "" ==> ds == []) && NoStray(Intended(ds, cs[0]), cs[1..]))
  }

  /** The first n components are read as intended, for every n, exactly when no empty component is met away from the
      root. */
  lemma {:induction false} ReadAsIntended(ds: Path, cs: seq<string>)
    ensures (forall n :: 0 <= n <= |cs| ==> Walk(ds, cs[..n]) == WalkIntended(ds, cs[..n])) <==> NoStray(ds, cs)
    decreases |cs|
  {
    if cs == [] {
      assert cs[..0] == [];
    } else {
      var d, d' := Step(ds, cs[0]), Intended(ds, cs[0]);
      forall n | 1 <= n <= |cs|
        ensures Walk(ds, cs[..n]) == Walk(d, cs[1..][..n - 1]) &&
                WalkIntended(ds, cs[..n]) == WalkIntended(d', cs[1..][..n - 1])
      {
        assert cs[..n][1..] == cs[1..][..n - 1];
      }
      assert Walk(d, cs[1..][..0]) == d && WalkIntended(d', cs[1..][..0]) == d';
      ReadAsIntended(d', cs[1..]);
      if NoStray(ds, cs) {
        assert d == d';
      } else if cs[0] == "" && ds != [] {
        assert Walk(ds, cs[..1]) != WalkIntended(ds, cs[..1]);
      } else {
        assert d == d';
        var n :| 0 <= n <= |cs| - 1 && Walk(d, cs[1..][..n]) != WalkIntended(d', cs[1..][..n]);
        assert Walk(ds, cs[..n + 1]) != WalkIntended(ds, cs[..n + 1]);
      }
    }
  }

  /** Ordinary directories: names that are neither empty nor "." nor "..". */
  predicate Canonical(ds: Path) {
    forall i :: 0 <= i < |ds| ==> Name(ds[i]) && ds[i] != "" && ds[i] != "." && ds[i] != ".."
  }

  /** From a canonical directory, a path without stray empty components leads to a canonical one, the intended one. */
  lemma {:induction false} StaysCanonical(ds: Path, cs: seq<string>)
    requires Canonical(ds) && NoStray(ds, cs) && forall i :: 0 <= i < |cs| ==> Name(cs[i])
    ensures Canonical(Walk(ds, cs)) && Walk(ds, cs) == WalkIntended(ds, cs)
    decreases |cs|
  {
    if cs != [] { StaysCanonical(Step(ds, cs[0]), cs[1..]); }
  }

  /** "a//.." from the root: the code ends in /a, not in the root. */
  lemma StrayExample()
    ensures Convert([], "a//..") == ["a"] && WalkIntended([], Parse("", "a//..")) == []
  {
    StrayParse();
    hide Parse;
    var cs := ["a", "", ".."];
    assert cs[1..] == ["", ".."] && cs[1..][1..] == [".."] && cs[1..][1..][1..] == [];
  }

  lemma StrayParse()
    ensures Parse("", "a//..") == ["a", "", ".."]
  {
    assert "a//.." == "a" + "/" + "/..";
    ParseJoin("", "a", "/..");
    assert "/.." == "" + "/" + "..";
    ParseJoin("", "", "..");
    ParseName("", "a");
    ParseName("", "");
    ParseName("", "..");
    assert "" + "a" == "a" && "" + ".." == "..";
  }

  // The buffer.

  /** Before each component: the buffer holds the directory's string and its terminator, and i stands at the end of
      it, or at 0 when ".." has just led to the root. */
  ghost predicate Holds(b: seq<char>, i: nat, ds: Path) {
    && Good(ds) && |b| == SIZE && |Render(ds)| < SIZE
    && b[..|Render(ds)|] == Render(ds) && b[|Render(ds)|] == NUL
    && (i == |Render(ds)| || (ds == [] && i == 0))
  }

  lemma {:induction false} BelowShape(ds: Path)
    requires Good(ds)
    ensures ds != [] ==> |Below(ds)| > 1 && Below(ds)[0] == '/'
    ensures NUL !in Below(ds)
    ensures ds == [] ==> Below(ds) == ""
  {
    if ds != [] {
      var d := ds[..|ds| - 1];
      BelowShape(d);
      if d == [] { assert ds[|ds| - 1] == ds[0]; }
    }
  }

  /** The last slash separates the last name from the rest. */
  lemma LastSlash(ds: Path)
    requires Good(ds) && ds != []
    ensures var s, n := Below(ds), |Below(ds[..|ds| - 1])|;
            && n < |s| && s[n] == '/' && s[..n] == Below(ds[..|ds| - 1])
            && (forall x :: n < x < |s| ==> s[x] != '/')
  {
    var s, d, c := Below(ds), Below(ds[..|ds| - 1]), ds[|ds| - 1];
    assert s == d + ("/" + c);
    forall x | |d| < x < |s| ensures s[x] != '/' { assert s[x] == c[x - |d| - 1]; }
  }

  lemma UpLength(ds: Path)
    requires Good(ds)
    ensures Good(Step(ds, "..")) && (ds != [] ==> |Below(Step(ds, ".."))| < |Below(ds)|)
    ensures |Render(Step(ds, ".."))| <= |Render(ds)|
  {
    if ds != [] {
      LastSlash(ds);
      BelowShape(ds);
    }
  }

  /** The ".." branch. */
  method GoUp(realDir: array<char>, i0: nat, ghost ds: Path) returns (i: nat)
    requires realDir.Length == SIZE && Holds(realDir[..], i0, ds)
    modifies realDir
    ensures Holds(realDir[..], i, Step(ds, ".."))
  {
    i := i0;
    ghost var s := Render(ds);
    ghost var n := if ds == [] then 0 else |Below(ds[..|ds| - 1])|;
    UpLength(ds);
    if ds != [] { LastSlash(ds); BelowShape(ds[..|ds| - 1]); }
    assert forall x :: 0 <= x < |s| ==> realDir[..][x] == s[x];
    while i != 0 && realDir[i] != '/'
      invariant n <= i <= |s|
      invariant ds == [] && i0 == 0 ==> i == 0
      invariant forall x :: 0 <= x < |s| ==> realDir[x] == s[x]
    {
      i := i - 1;
    }
    assert i == n;
    realDir[i] := NUL;
    if i == 0 {
      realDir[0] := '/';
      realDir[1] := NUL;
      if ds != [] { RootBelow(ds); }
      assert realDir[..][..1] == "/";
    } else {
      assert realDir[..][..n] == s[..n];
    }
  }

  lemma RootBelow(ds: Path)
    requires Good(ds) && ds != [] && |Below(ds[..|ds| - 1])| == 0
    ensures ds[..|ds| - 1] == []
  {
    BelowShape(ds[..|ds| - 1]);
  }

  /** The branch for every other component but ".". */
  method GoDown(realDir: array<char>, i0: nat, temp: array<char>, k: nat, ghost ds: Path) returns (i: nat)
    requires realDir.Length == SIZE && temp.Length == SIZE && realDir != temp && Holds(realDir[..], i0, ds)
    requires k < SIZE && temp[k] == NUL && Name(temp[..k]) && temp[..k] != "." && temp[..k] != ".."
    requires |Render(Step(ds, temp[..k]))| < SIZE
    modifies realDir
    ensures Holds(realDir[..], i, Step(ds, temp[..k]))
  {
    ghost var c := temp[..k];
    StepGood(ds, c);
    DownRender(ds, c);
    hide Holds, Below, Render, Step, Good, Name, Overlay;
    i := AddSlash(realDir, i0, ds);
    ghost var b := realDir[..];
    StrCpy(realDir, i, temp, k);
    assert temp[..k + 1] == c + [NUL];
    i := i + k;
    Arrived(b, realDir[..], i, Below(ds) + "/", c, ds);
  }

  /** The separator, unless the root's own slash is there already. */
  method AddSlash(realDir: array<char>, i0: nat, ghost ds: Path) returns (i: nat)
    requires realDir.Length == SIZE && Holds(realDir[..], i0, ds) && |Below(ds)| + 1 < SIZE
    modifies realDir
    ensures i == |Below(ds)| + 1 && realDir[..][..i] == Below(ds) + "/"
  {
    Standing(realDir[..], i0, ds);
    hide Holds, Below;
    i := i0;
    if i != 1 {
      realDir[i] := '/';
      i := i + 1;
    }
  }

  /** Where a name is put: behind the directory's own string, or behind the root's slash. */
  lemma Standing(b: seq<char>, i: nat, ds: Path)
    requires Holds(b, i, ds)
    ensures if i == 1 then b[..1] == Below(ds) + "/" else i == |Below(ds)| && b[..i] == Below(ds)
    ensures i <= |b|
  {
    BelowShape(ds);
    if i == 1 { assert Render(ds) == "/" == Below(ds) + "/"; }
  }

  function Overlay(b: seq<char>, at: nat, x: seq<char>): (r: seq<char>)
    requires at + |x| <= |b|
    ensures |r| == |b|
  {
    b[..at] + x + b[at + |x|..]
  }

  method StrCpy(dest: array<char>, at: nat, src: array<char>, k: nat)
    requires dest != src && at + k < dest.Length && k < src.Length
    modifies dest
    ensures dest[..] == Overlay(old(dest[..]), at, old(src[..k + 1]))
  {
    forall x | 0 <= x <= k { dest[at + x] := src[x]; }
  }

  lemma Arrived(b: seq<char>, b': seq<char>, i: nat, pre: string, c: string, ds: Path)
    requires Good(Step(ds, c)) && Render(Step(ds, c)) == pre + c && i == |pre| + |c| < SIZE == |b|
    requires b[..|pre|] == pre && b' == Overlay(b, |pre|, c + [NUL])
    ensures Holds(b', i, Step(ds, c))
  {
    hide Render, Step, Good;
    assert b'[..i] == pre + c;
  }

  lemma DownRender(ds: Path, c: string)
    requires Good(ds) && c != "." && c != ".."
    ensures Render(Step(ds, c)) == Below(ds) + "/" + c
  {
    if c == "" && ds == [] {
      assert "" + "/" + "" == "/";
    } else {
      assert (ds + [c])[..|ds + [c]| - 1] == ds;
    }
  }

  // A canonical directory's own string leads back to it.

  lemma {:induction false} ParseName(cur: string, c: string)
    requires '/' !in c
    ensures Parse(cur, c) == [cur + c]
    decreases |c|
  {
    if c != "" {
      ParseName(cur + [c[0]], c[1..]);
      assert cur + [c[0]] + c[1..] == cur + c;
    } else {
      assert cur + c == cur;
    }
  }

  lemma {:induction false} ParseBelow(ds: Path)
    requires Canonical(ds) && ds != []
    ensures var s := Below(ds); |s| > 1 && s[|s| - 1] != '/' && Parse("", s[1..]) == ds
  {
    var d, c := ds[..|ds| - 1], ds[|ds| - 1];
    assert ds == d + [c];
    ParseName("", c);
    assert "" + c == c;
    if d != [] { ParseBelow(d); }
    hide Parse, Canonical, Name;
    BelowJoin(Below(d), c);
    if d != [] { ParseJoin("", Below(d)[1..], c); }
  }

  lemma BelowJoin(b: string, c: string)
    requires c != ""
    ensures var s := b + "/" + c;
            && |s| > 1 && s[|s| - 1] == c[|c| - 1]
            && (if b == "" then s[1..] == c
                else s[1..] == b[1..] + "/" + c && (|b| > 1 ==> b[1..][|b[1..]| - 1] == b[|b| - 1]))
  {
    if b == "" { assert b + "/" + c == "/" + c; }
  }

  lemma {:induction false} WalkDown(ds: Path)
    requires Canonical(ds)
    ensures Walk([], ds) == ds
  {
    if ds != [] {
      var d, c := ds[..|ds| - 1], ds[|ds| - 1];
      WalkDown(d);
      assert ds == d + [c];
      WalkConcat([], d, [c]);
      assert [c][1..] == [];
    }
  }

  lemma RoundTrip(ds: Path, from: Path)
    requires Canonical(ds)
    ensures Convert(from, Render(ds)) == ds
  {
    var s := Render(ds);
    if ds == [] {
      assert s[1..] == "";
      assert [""][1..] == [];
    } else {
      BelowShape(ds);
      ParseBelow(ds);
      WalkDown(ds);
    }
  }

  // The loop.

  /** The components and all directories on the way fit the buffers. */
  predicate Fits(ds: Path, cs: seq<string>)
    decreases |cs|
  {
    |Render(ds)| < SIZE && (cs == [] || (|cs[0]| < SIZE && Fits(Step(ds, cs[0]), cs[1..])))
  }

  function Length(cs: seq<string>): nat {
    if cs == [] then 0 else |cs[0]| + 1 + Length(cs[1..])
  }

  lemma {:induction false} ParseLength(cur: string, rest: string)
    ensures Length(Parse(cur, rest)) <= |cur| + |rest| + 1
    decreases |rest|
  {
    if rest == "" || rest == "/" {
      assert Parse(cur, rest)[1..] == [];
    } else if rest[0] == '/' {
      ParseLength("", rest[1..]);
      assert Parse(cur, rest)[1..] == Parse("", rest[1..]);
    } else {
      ParseLength(cur + [rest[0]], rest[1..]);
    }
  }

  lemma StepLength(ds: Path, c: string)
    requires Good(ds) && Name(c)
    ensures |Render(Step(ds, c))| <= |Render(ds)| + |c| + 1
  {
    if c == ".." { UpLength(ds); } else if c != "." { DownRender(ds, c); }
  }

  lemma {:induction false} EnoughRoom(ds: Path, cs: seq<string>)
    requires Good(ds) && (forall i :: 0 <= i < |cs| ==> Name(cs[i])) && |Render(ds)| + Length(cs) < SIZE
    ensures Fits(ds, cs)
    decreases |cs|
  {
    if cs != [] {
      StepLength(ds, cs[0]);
      StepGood(ds, cs[0]);
      EnoughRoom(Step(ds, cs[0]), cs[1..]);
    }
  }

  /** The buffers suffice whenever both strings, a slash and a terminator fit into one of them. */
  lemma ShortPathsFit(ds: Path, p: string)
    requires Good(ds) && NUL !in p && |Render(ds)| + |p| + 2 <= SIZE
    ensures ConvertFits(ds, p)
  {
    if p != "" && p[0] == '/' {
      ParseNames("", p[1..]);
      ParseLength("", p[1..]);
      EnoughRoom([], Parse("", p[1..]));
    } else {
      ParseNames("", p);
      ParseLength("", p);
      EnoughRoom(ds, Parse("", p));
    }
  }

  predicate ConvertFits(ds: Path, p: string) {
    if p != "" && p[0] == '/' then Fits([], Parse("", p[1..])) else Fits(ds, Parse("", p))
  }

  /** Where the loop stands: at character j, with `cur` in temp. */
  ghost predicate Reading(ds: Path, cur: string, p: string, j: nat, target: Path) {
    && j <= |p| && NUL !in p && Name(cur)
    && Fits(ds, Parse(cur, p[j..])) && Walk(ds, Parse(cur, p[j..])) == target
  }

  lemma {:induction false} FirstComponent(cur: string, rest: string)
    ensures |Parse(cur, rest)[0]| >= |cur|
    decreases |rest|
  {
    if rest == "" || rest == "/" || rest[0] == '/' {
    } else {
      FirstComponent(cur + [rest[0]], rest[1..]);
    }
  }

  lemma ReadChar(ds: Path, cur: string, p: string, j: nat, target: Path)
    requires Reading(ds, cur, p, j, target) && j < |p| && p[j] != '/'
    ensures |cur| + 1 < SIZE && Reading(ds, cur + [p[j]], p, j + 1, target)
  {
    assert p[j..][0] == p[j] && p[j..][1..] == p[j + 1..];
    FirstComponent(cur + [p[j]], p[j + 1..]);
  }

  predicate AtEnd(p: string, j: nat) { j == |p| || (j == |p| - 1 && p[j] == '/') }

  lemma ReadComponent(ds: Path, cur: string, p: string, j: nat, target: Path)
    requires Reading(ds, cur, p, j, target) && (j == |p| || p[j] == '/')
    ensures |cur| < SIZE && |Render(Step(ds, cur))| < SIZE
    ensures if AtEnd(p, j) then Step(ds, cur) == target else j < |p| && Reading(Step(ds, cur), "", p, j + 1, target)
  {
    var rest := p[j..];
    if AtEnd(p, j) {
      assert rest == "" || rest == "/";
      assert [cur][1..] == [];
      assert Walk(ds, [cur]) == Walk(Step(ds, cur), []);
      assert Fits(Step(ds, cur), []);
    } else {
      assert rest[0] == '/' && rest[1..] == p[j + 1..];
      assert Parse(cur, rest)[1..] == Parse("", rest[1..]);
    }
  }

  /** What happens to the buffer at the end of a component. */
  method Component(realDir: array<char>, i0: nat, temp: array<char>, k: nat, ghost ds: Path) returns (i: nat)
    requires realDir.Length == SIZE && temp.Length == SIZE && realDir != temp && Holds(realDir[..], i0, ds)
    requires k < SIZE && temp[k] == NUL && Name(temp[..k]) && |Render(Step(ds, temp[..k]))| < SIZE
    modifies realDir
    ensures Holds(realDir[..], i, Step(ds, temp[..k]))
  {
    hide Holds, Render;
    i := i0;
    if temp[..k] == ".." {
      i := GoUp(realDir, i0, ds);
    } else if temp[..k] != "." {
      i := GoDown(realDir, i0, temp, k, ds);
    }
  }

  /** convert_to_full_path. The buffer ends up with the string of the directory the path leads to. */
  method ConvertToFullPath(dirName: Option<string>, currentDir: string, realDir: array<char>, ghost ds0: Path)
    requires realDir.Length == SIZE && Good(ds0) && currentDir == Render(ds0) && |currentDir| < SIZE
    requires dirName.Some? ==> NUL !in dirName.value && ConvertFits(ds0, dirName.value)
    modifies realDir
    ensures var s := Render(if dirName.None? then ds0 else Convert(ds0, dirName.value));
            |s| < SIZE && realDir[..|s|] == s && realDir[|s|] == NUL
  {
    ghost var ds := ds0;
    var name := if dirName.Some? then dirName.value else "";
    if dirName.None? || name == "" || name[0] != '/' {
      Store(realDir, currentDir);
    } else {
      Store(realDir, "/");
      ds := [];
      name := name[1..];
    }
    if dirName.None? { return; }
    ghost var target := Walk(ds, Parse("", name));
    RenderNoNul(ds);
    var i := StrLen(realDir, Render(ds));
    Settled(realDir[..], ds, name, target);
    hide Holds, Reading, Render;
    ReadPath(realDir, name, i, ds, target);
  }

  lemma RenderNoNul(ds: Path)
    requires Good(ds)
    ensures NUL !in Render(ds)
  {
    BelowShape(ds);
  }

  lemma Settled(b: seq<char>, ds: Path, p: string, target: Path)
    requires Good(ds) && |b| == SIZE && |Render(ds)| < SIZE && b[..|Render(ds)|] == Render(ds) && b[|Render(ds)|] == NUL
    requires NUL !in p && Fits(ds, Parse("", p)) && target == Walk(ds, Parse("", p))
    ensures Holds(b, |Render(ds)|, ds) && Reading(ds, "", p, 0, target)
  {
    assert p[0..] == p;
  }

  method StrLen(b: array<char>, ghost s: string) returns (n: nat)
    requires |s| < b.Length && b[..|s|] == s && b[|s|] == NUL && NUL !in s
    ensures n == |s|
  {
    assert forall x :: 0 <= x < |s| ==> b[..|s|][x] == b[x] == s[x] && s[x] in s;
    n := 0;
    while b[n] != NUL
      invariant n <= |s|
      decreases |s| - n
    {
      n := n + 1;
    }
  }

  /** strcpy of a string into the empty buffer. */
  method Store(realDir: array<char>, s: string)
    requires realDir.Length == SIZE && |s| < SIZE
    modifies realDir
    ensures realDir[..|s|] == s && realDir[|s|] == NUL
  {
    forall x | 0 <= x < |s| { realDir[x] := s[x]; }
    realDir[|s|] := NUL;
  }

  method ReadPath(realDir: array<char>, name: string, i0: nat, ghost ds0: Path, ghost target: Path)
    requires realDir.Length == SIZE && Holds(realDir[..], i0, ds0) && Reading(ds0, "", name, 0, target)
    modifies realDir
    ensures |Render(target)| < SIZE && realDir[..|Render(target)|] == Render(target) && realDir[|Render(target)|] == NUL
  {
    hide Holds, Reading, AtEnd, Step, Render, Name;
    var temp := new char[SIZE];
    var i, j: nat, k: int := i0, 0, 0;
    ghost var ds, cur := ds0, "";
    while true
      invariant j <= |name| && 0 <= k == |cur| < SIZE && temp[..k] == cur
      invariant Holds(realDir[..], i, ds) && Reading(ds, cur, name, j, target)
      decreases |name| - j
    {
      if j == |name| || name[j] == '/' {
        ReadComponent(ds, cur, name, j, target);
        temp[k] := NUL;
        assert temp[..k] == cur;
        CurIsName(ds, cur, name, j, target);
        i := Component(realDir, i, temp, k, ds);
        ds, cur := Step(ds, cur), "";
        k := -1;
      } else {
        ReadChar(ds, cur, name, j, target);
        temp[k] := name[j];
        cur := cur + [name[j]];
      }
      if j == |name| || (name[j] == '/' && j + 1 == |name|) {
        EndMeans(name, j);
        HoldsString(realDir[..], i, target);
        return;
      }
      EndMeans(name, j);
      j := j + 1;
      k := k + 1;
    }
  }

  lemma HoldsString(b: seq<char>, i: nat, ds: Path)
    requires Holds(b, i, ds)
    ensures |b| == SIZE && |Render(ds)| < SIZE && b[..|Render(ds)|] == Render(ds) && b[|Render(ds)|] == NUL
  {
  }

  lemma EndMeans(p: string, j: nat)
    requires j <= |p|
    ensures AtEnd(p, j) <==> j == |p| || (p[j] == '/' && j + 1 == |p|)
  {
  }

  lemma CurIsName(ds: Path, cur: string, p: string, j: nat, target: Path)
    requires Reading(ds, cur, p, j, target)
    ensures Name(cur)
  {
  }
}

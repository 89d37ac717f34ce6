/** The ECMAScript string operations the control page relies on:
    `String.prototype.trim`, `split('\n')`, and the decimal rendering of an
    integral number (what a template literal `${n}` produces for it). */
module Text {
  import opened Wrappers
  import opened Seqs

  /** A character `String.prototype.trim` removes: the WhiteSpace and
      LineTerminator productions of ECMAScript, with every Unicode Zs
      character written out. */
  predicate IsSpace(c: char) {
    || c == '\t' || c == '\n' || c == '\U{B}' || c == '\U{C}' || c == '\r'
    || c == ' ' || c == '\U{A0}' || c == '\U{1680}'
    || ('\U{2000}' <= c <= '\U{200A}')
    || c == '\U{2028}' || c == '\U{2029}' || c == '\U{202F}' || c == '\U{205F}'
    || c == '\U{3000}' || c == '\U{FEFF}'
  }

  predicate AllSpace(s: string) {
    forall k :: 0 <= k < |s| ==> IsSpace(s[k])
  }

  /** No leading and no trailing whitespace. */
  predicate Trimmed(s: string) {
    s == [] || (!IsSpace(s[0]) && !IsSpace(s[|s| - 1]))
  }

  /** Drops the leading whitespace. */
  function TrimStart(s: string): (r: string)
    ensures |r| <= |s|
  {
    if s != [] && IsSpace(s[0]) then TrimStart(s[1..]) else s
  }

  /** Drops the trailing whitespace. */
  function TrimEnd(s: string): (r: string)
    ensures |r| <= |s|
  {
    if s != [] && IsSpace(s[|s| - 1]) then TrimEnd(s[..|s| - 1]) else s
  }

  /** What TrimStart leaves is a suffix of `s`, everything cut off is
      whitespace, and it does not start with whitespace. */
  lemma {:induction false} TrimStartSuffix(s: string)
    ensures TrimStart(s) == s[|s| - |TrimStart(s)|..]
    ensures AllSpace(s[..|s| - |TrimStart(s)|])
    ensures TrimStart(s) == [] || !IsSpace(TrimStart(s)[0])
  {
    if s != [] && IsSpace(s[0]) {
      var r := TrimStart(s[1..]);
      TrimStartSuffix(s[1..]);
      ConsTake(s, |s| - |r|);
      DropDrop(s, 1, |s| - 1 - |r|);
    }
  }

  /** What TrimEnd leaves is a prefix of `s`, everything cut off is
      whitespace, and it does not end with whitespace. */
  lemma {:induction false} TrimEndPrefix(s: string)
    ensures TrimEnd(s) == s[..|TrimEnd(s)|]
    ensures AllSpace(s[|TrimEnd(s)|..])
    ensures TrimEnd(s) == [] || !IsSpace(TrimEnd(s)[|TrimEnd(s)| - 1])
  {
    if s != [] && IsSpace(s[|s| - 1]) {
      var r := TrimEnd(s[..|s| - 1]);
      TrimEndPrefix(s[..|s| - 1]);
      SnocDrop(s, |r|);
      TakeTake(s, |s| - 1, |r|);
    }
  }

  /** Number of leading whitespace characters of `s`. */
  function Lead(s: string): nat {
    |s| - |TrimStart(s)|
  }

  /** `String.prototype.trim`. */
  function Trim(s: string): string {
    TrimEnd(TrimStart(s))
  }

  /** What `Trim` keeps: `s` is its result framed by whitespace on both
      sides, the result itself starts and ends with a character that is
      not whitespace, and it is empty exactly when `s` is all whitespace. */
  lemma {:induction false} TrimShape(s: string)
    ensures Lead(s) + |Trim(s)| <= |s| && Trim(s) == s[Lead(s)..Lead(s) + |Trim(s)|]
    ensures AllSpace(s[..Lead(s)]) && AllSpace(s[Lead(s) + |Trim(s)|..])
    ensures Trimmed(Trim(s))
    ensures Trim(s) == [] <==> AllSpace(s)
  {
    TrimFrame(s);
    TrimIsTrimmed(s);
    TrimEmpty(s);
  }

  lemma {:induction false} TrimFrame(s: string)
    ensures Lead(s) + |Trim(s)| <= |s| && Trim(s) == s[Lead(s)..Lead(s) + |Trim(s)|]
    ensures AllSpace(s[..Lead(s)]) && AllSpace(s[Lead(s) + |Trim(s)|..])
  {
    TrimStartSuffix(s);
    TrimMiddle(s, TrimStart(s));
    TrimAfter(s, TrimStart(s));
  }

  lemma {:induction false} TrimMiddle(s: string, t: string)
    requires t == TrimStart(s)
    ensures Lead(s) + |Trim(s)| <= |s| && Trim(s) == s[Lead(s)..Lead(s) + |Trim(s)|]
  {
    var r, i := TrimEnd(t), |s| - |t|;
    TrimStartSuffix(s);
    TrimEndPrefix(t);
    assert t == s[i..];
    assert r == t[..|r|];
    DropTake(s, i, |r|);
  }

  lemma {:induction false} TrimAfter(s: string, t: string)
    requires t == TrimStart(s)
    ensures AllSpace(s[Lead(s) + |Trim(s)|..])
  {
    var r, i := TrimEnd(t), |s| - |t|;
    TrimStartSuffix(s);
    TrimEndPrefix(t);
    assert t == s[i..];
    assert AllSpace(t[|r|..]);
    DropDrop(s, i, |r|);
  }

  lemma {:induction false} TrimIsTrimmed(s: string)
    ensures Trimmed(Trim(s))
  {
    var t, r := TrimStart(s), Trim(s);
    TrimStartSuffix(s);
    TrimEndPrefix(t);
    if r != [] {
      assert r == t[..|r|];
      assert r[0] == t[0];
    }
  }

  lemma {:induction false} TrimEmpty(s: string)
    ensures Trim(s) == [] <==> AllSpace(s)
  {
    var t, r, i := TrimStart(s), Trim(s), Lead(s);
    TrimStartSuffix(s);
    TrimEndPrefix(t);
    assert t == s[i..] && AllSpace(s[..i]);
    if r == [] {
      assert AllSpace(t[|r|..]);
      assert t == [];
      assert s == s[..i];
    } else {
      assert r == t[..|r|];
      assert s[i] == r[0];
    }
  }

  lemma {:induction false} TrimStartSkips(a: string, x: string)
    requires AllSpace(a) && (x == [] || !IsSpace(x[0]))
    ensures TrimStart(a + x) == x
  {
    if a != [] {
      assert (a + x)[1..] == a[1..] + x;
      TrimStartSkips(a[1..], x);
    }
  }

  lemma {:induction false} TrimEndSkips(x: string, b: string)
    requires AllSpace(b) && (x == [] || !IsSpace(x[|x| - 1]))
    ensures TrimEnd(x + b) == x
  {
    if b != [] {
      assert (x + b)[..|x + b| - 1] == x + b[..|b| - 1];
      TrimEndSkips(x, b[..|b| - 1]);
    }
  }

  /** Trim is determined by its contract: whatever whitespace frames a
      trimmed string, trimming recovers exactly that string. */
  lemma {:induction false} TrimFramed(a: string, m: string, b: string)
    requires AllSpace(a) && AllSpace(b) && Trimmed(m)
    ensures Trim(a + m + b) == m
  {
    assert a + m + b == a + (m + b);
    if m == [] {
      assert AllSpace(a + b);
      TrimStartSkips(a + b, []);
      assert a + m + b == a + b + [];
      assert TrimStart(a + m + b) == [];
    } else {
      TrimStartSkips(a, m + b);
      TrimEndSkips(m, b);
    }
  }

  /** Trimming twice is trimming once. */
  lemma {:induction false} TrimIdempotent(s: string)
    ensures Trim(Trim(s)) == Trim(s)
  {
    TrimIsTrimmed(s);
    TrimFramed([], Trim(s), []);
    assert [] + Trim(s) + [] == Trim(s);
  }

  /** `Join(Split(s)) == s`: the pieces put back with a newline between
      each two. */
  function Join(pieces: seq<string>): string
    requires |pieces| >= 1
  {
    if |pieces| == 1 then pieces[0] else pieces[0] + "\n" + Join(pieces[1..])
  }

  /** `s.split('\n')`: at least one piece, and no piece holds a newline
      (JoinSplit and SplitJoin below show that the pieces are exactly the
      newline-separated runs of `s`). */
  function Split(s: string): (r: seq<string>)
    ensures |r| >= 1
    ensures forall k :: 0 <= k < |r| ==> '\n' !in r[k]
  {
    if s == [] then [[]]
    else
      var rest := Split(s[1..]);
      if s[0] == '\n' then [[]] + rest
      else [[s[0]] + rest[0]] + rest[1..]
  }

  /** Joining the pieces with newlines gives the text back. */
  lemma {:induction false} JoinSplit(s: string)
    ensures Join(Split(s)) == s
  {
    if s != [] {
      var rest := Split(s[1..]);
      JoinSplit(s[1..]);
      if s[0] == '\n' {
        assert Split(s) == [[]] + rest;
        assert ([[]] + rest)[1..] == rest;
        assert s == "\n" + s[1..];
      } else {
        var r := [[s[0]] + rest[0]] + rest[1..];
        assert Split(s) == r;
        assert s == [s[0]] + s[1..];
        if |rest| > 1 {
          assert r[1..] == rest[1..];
          assert Join(rest) == rest[0] + "\n" + Join(rest[1..]);
        }
      }
    }
  }

  /** Splitting a string that starts with a newline-free prefix `p`:
      `p` is glued to the front of the first piece of the rest. */
  lemma {:induction false} SplitPrefix(p: string, t: string)
    requires '\n' !in p
    ensures Split(p + t) == [p + Split(t)[0]] + Split(t)[1..]
  {
    if p == [] {
      assert p + t == t;
      assert p + Split(t)[0] == Split(t)[0];
      assert Split(t) == [Split(t)[0]] + Split(t)[1..];
    } else {
      assert (p + t)[1..] == p[1..] + t;
      assert (p + t)[0] == p[0] != '\n';
      SplitPrefix(p[1..], t);
      var rest := Split(p[1..] + t);
      assert rest[0] == p[1..] + Split(t)[0];
      assert rest[1..] == Split(t)[1..];
      assert Split(p + t) == [[p[0]] + rest[0]] + rest[1..];
      assert [p[0]] + (p[1..] + Split(t)[0]) == p + Split(t)[0];
    }
  }

  /** Split undoes Join on newline-free pieces, so the two are inverse. */
  lemma {:induction false} SplitJoin(pieces: seq<string>)
    requires |pieces| >= 1
    requires forall k :: 0 <= k < |pieces| ==> '\n' !in pieces[k]
    ensures Split(Join(pieces)) == pieces
  {
    if |pieces| == 1 {
      SplitPrefix(pieces[0], []);
      assert pieces[0] + [] == pieces[0];
    } else {
      var j := Join(pieces[1..]);
      SplitJoin(pieces[1..]);
      assert Join(pieces) == pieces[0] + ("\n" + j);
      SplitPrefix(pieces[0], "\n" + j);
      assert ("\n" + j)[1..] == j;
      assert Split("\n" + j) == [[]] + Split(j);
      assert pieces[0] + [] == pieces[0];
      assert pieces == [pieces[0]] + pieces[1..];
    }
  }

  /** One step of Split: the first character either starts a new piece or
      joins the first piece. */
  lemma {:induction false} SplitCons(c: char, t: string)
    ensures Split([c] + t) ==
      if c == '\n' then [[]] + Split(t) else [[c] + Split(t)[0]] + Split(t)[1..]
  {
    assert ([c] + t)[1..] == t;
  }

  /** Fusing the last piece of `a` with the first of `b`. */
  function Fuse(a: seq<string>, b: seq<string>): seq<string>
    requires |a| >= 1 && |b| >= 1
  {
    a[..|a| - 1] + [a[|a| - 1] + b[0]] + b[1..]
  }

  lemma {:induction false} FuseAfterEmpty(a: seq<string>, b: seq<string>)
    requires |a| >= 1 && |b| >= 1
    ensures [[]] + Fuse(a, b) == Fuse([[]] + a, b)
  {
    assert ([[]] + a)[..|a|] == [[]] + a[..|a| - 1];
  }

  lemma {:induction false} FuseAfterChar(c: char, a: seq<string>, b: seq<string>)
    requires |a| >= 1 && |b| >= 1
    ensures var f := Fuse(a, b);
            [[c] + f[0]] + f[1..] == Fuse([[c] + a[0]] + a[1..], b)
  {
    var f := Fuse(a, b);
    var a' := [[c] + a[0]] + a[1..];
    if |a| == 1 {
      assert f == [a[0] + b[0]] + b[1..];
      assert [c] + (a[0] + b[0]) == ([c] + a[0]) + b[0];
    } else {
      assert f[0] == a[0];
      assert f[1..] == a[1..][..|a| - 2] + [a[|a| - 1] + b[0]] + b[1..];
      assert a'[..|a'| - 1] == [[c] + a[0]] + a[1..][..|a| - 2];
    }
  }

  /** Splitting a concatenation: the last piece of `x` and the first piece
      of `y` fuse into one. */
  lemma {:induction false} SplitAppend(x: string, y: string)
    ensures Split(x + y) == Fuse(Split(x), Split(y))
  {
    var sy := Split(y);
    if x == [] {
      assert x + y == y;
      assert [] + sy[0] == sy[0];
      assert sy == [sy[0]] + sy[1..];
    } else {
      var c := x[0];
      assert x == [c] + x[1..];
      assert x + y == [c] + (x[1..] + y);
      SplitAppend(x[1..], y);
      SplitCons(c, x[1..]);
      SplitCons(c, x[1..] + y);
      if c == '\n' {
        FuseAfterEmpty(Split(x[1..]), sy);
      } else {
        FuseAfterChar(c, Split(x[1..]), sy);
      }
    }
  }

  /** Every piece of an all-whitespace string is all whitespace. */
  lemma {:induction false} SplitAllSpace(s: string)
    requires AllSpace(s)
    ensures forall k :: 0 <= k < |Split(s)| ==> AllSpace(Split(s)[k])
  {
    if s != [] {
      SplitAllSpace(s[1..]);
    }
  }

  /** Trims every piece. */
  function TrimEach(pieces: seq<string>): (r: seq<string>)
    ensures |r| == |pieces|
  {
    if pieces == [] then []
    else TrimEach(pieces[..|pieces| - 1]) + [Trim(pieces[|pieces| - 1])]
  }

  /** The k-th trimmed piece is the k-th piece, trimmed. */
  lemma {:induction false} TrimEachAt(pieces: seq<string>, k: nat)
    requires k < |pieces|
    ensures TrimEach(pieces)[k] == Trim(pieces[k])
  {
    var n := |pieces| - 1;
    TrimEachLast(pieces);
    if k < n {
      TrimEachAt(pieces[..n], k);
      TrimEachInit(pieces, k);
    }
  }

  lemma {:induction false} TrimEachLast(pieces: seq<string>)
    requires |pieces| >= 1
    ensures TrimEach(pieces)[|pieces| - 1] == Trim(pieces[|pieces| - 1])
  {
    var n := |pieces| - 1;
    assert TrimEach(pieces) == TrimEach(pieces[..n]) + [Trim(pieces[n])];
    IndexRight(TrimEach(pieces[..n]), [Trim(pieces[n])], 0);
  }

  lemma {:induction false} TrimEachInit(pieces: seq<string>, k: nat)
    requires k < |pieces| - 1
    ensures TrimEach(pieces)[k] == TrimEach(pieces[..|pieces| - 1])[k]
    ensures pieces[..|pieces| - 1][k] == pieces[k]
  {
    var n := |pieces| - 1;
    assert TrimEach(pieces) == TrimEach(pieces[..n]) + [Trim(pieces[n])];
    IndexLeft(TrimEach(pieces[..n]), [Trim(pieces[n])], k);
  }

  /** Trimming each of one more piece appends that piece trimmed. */
  lemma {:induction false} TrimEachSnoc(pieces: seq<string>, i: nat)
    requires i < |pieces|
    ensures TrimEach(pieces[..i + 1]) == TrimEach(pieces[..i]) + [Trim(pieces[i])]
  {
    TakeOneMore(pieces, i);
  }

  /** What one piece contributes: its trimmed form, unless that is empty. */
  function Kept(piece: string): seq<string> {
    var t := Trim(piece);
    if t == [] then [] else [t]
  }

  /** The pieces that are not blank, trimmed, in their original order. */
  function Effective(pieces: seq<string>): seq<string> {
    if pieces == [] then []
    else Effective(pieces[..|pieces| - 1]) + Kept(pieces[|pieces| - 1])
  }

  lemma {:induction false} EffectiveAppend(x: seq<string>, y: seq<string>)
    ensures Effective(x + y) == Effective(x) + Effective(y)
  {
    if y == [] {
      assert x + y == x;
      assert Effective(x) + [] == Effective(x);
    } else {
      var init, k := y[..|y| - 1], Kept(y[|y| - 1]);
      calc {
        Effective(x + y);
        == { InitOfAppend(x, y); }
        Effective(x + init) + k;
        == { EffectiveAppend(x, init); }
        (Effective(x) + Effective(init)) + k;
        == { AppendAssoc(Effective(x), Effective(init), k); }
        Effective(x) + Effective(y);
      }
    }
  }

  lemma {:induction false} EffectiveOfSpaces(pieces: seq<string>)
    requires forall k :: 0 <= k < |pieces| ==> AllSpace(pieces[k])
    ensures Effective(pieces) == []
  {
    if pieces != [] {
      var n := |pieces|;
      TrimShape(pieces[n - 1]);
      assert forall k :: 0 <= k < n - 1 ==> pieces[..n - 1][k] == pieces[k];
      EffectiveOfSpaces(pieces[..n - 1]);
    }
  }

  /** Lines handled one after another by `step`, starting from `s`. */
  function Fold<S>(s: S, lines: seq<string>, step: (S, string) -> S): S {
    if lines == [] then s
    else step(Fold(s, lines[..|lines| - 1], step), lines[|lines| - 1])
  }

  /** Handling one more line after the others. */
  lemma {:induction false} FoldSnoc<S>(s: S, lines: seq<string>, line: string, step: (S, string) -> S)
    ensures Fold(s, lines + [line], step) == step(Fold(s, lines, step), line)
  {
    InitOfAppend(lines, [line]);
  }

  /** Handling `x + y` is handling `x` and then `y`. */
  lemma {:induction false} FoldAppend<S>(s: S, x: seq<string>, y: seq<string>, step: (S, string) -> S)
    ensures Fold(s, x + y, step) == Fold(Fold(s, x, step), y, step)
  {
    if y == [] {
      assert x + y == x;
    } else {
      InitOfAppend(x, y);
      FoldAppend(s, x, y[..|y| - 1], step);
    }
  }

  /** A property every step keeps holds after any number of lines. */
  lemma {:induction false} FoldKeeps<S>(s: S, lines: seq<string>, step: (S, string) -> S, inv: S -> bool)
    requires inv(s)
    requires forall w, line :: inv(w) ==> inv(step(w, line))
    ensures inv(Fold(s, lines, step))
  {
    if lines != [] {
      FoldKeeps(s, lines[..|lines| - 1], step, inv);
    }
  }

  /** When an empty line changes nothing, handling the trimmed pieces is
      handling only the non-blank ones. */
  lemma {:induction false} FoldSkipsBlank<S>(s: S, pieces: seq<string>, step: (S, string) -> S)
    requires forall w :: step(w, "") == w
    ensures Fold(s, TrimEach(pieces), step) == Fold(s, Effective(pieces), step)
  {
    if pieces != [] {
      var init, t := pieces[..|pieces| - 1], Trim(pieces[|pieces| - 1]);
      FoldSkipsBlank(s, init, step);
      FoldSnoc(s, TrimEach(init), t, step);
      if t == [] {
        assert Effective(init) + [] == Effective(init);
      } else {
        FoldSnoc(s, Effective(init), t, step);
      }
    }
  }

  lemma {:induction false} AllSpaceAppend(a: string, b: string)
    requires AllSpace(a) && AllSpace(b)
    ensures AllSpace(a + b)
  {
    forall k | 0 <= k < |a + b| ensures IsSpace((a + b)[k]) {
      if k < |a| { assert (a + b)[k] == a[k]; } else { assert (a + b)[k] == b[k - |a|]; }
    }
  }

  lemma {:induction false} TrimStartSpaceBefore(w: string, p: string)
    requires AllSpace(w)
    ensures TrimStart(w + p) == TrimStart(p)
  {
    if w == [] {
      assert w + p == p;
    } else {
      assert (w + p)[1..] == w[1..] + p;
      TrimStartSpaceBefore(w[1..], p);
    }
  }

  lemma {:induction false} TrimEndSpaceAfter(p: string, w: string)
    requires AllSpace(w)
    ensures TrimEnd(p + w) == TrimEnd(p)
  {
    if w == [] {
      assert p + w == p;
    } else {
      assert (p + w)[..|p + w| - 1] == p + w[..|w| - 1];
      TrimEndSpaceAfter(p, w[..|w| - 1]);
    }
  }

  lemma {:induction false} TrimStartSpaceAfter(p: string, w: string)
    requires AllSpace(w)
    ensures TrimStart(p + w) == if TrimStart(p) == [] then [] else TrimStart(p) + w
  {
    if p == [] {
      assert p + w == w;
      TrimStartSkips(w, []);
      assert w + [] == w;
    } else {
      assert (p + w)[1..] == p[1..] + w;
      assert (p + w)[0] == p[0];
      TrimStartSpaceAfter(p[1..], w);
    }
  }

  /** Whitespace in front of a string does not change its trimmed form. */
  lemma {:induction false} TrimSpaceBefore(w: string, p: string)
    requires AllSpace(w)
    ensures Trim(w + p) == Trim(p)
  {
    TrimStartSpaceBefore(w, p);
  }

  /** Whitespace after a string does not change its trimmed form. */
  lemma {:induction false} TrimSpaceAfter(p: string, w: string)
    requires AllSpace(w)
    ensures Trim(p + w) == Trim(p)
  {
    TrimStartSpaceAfter(p, w);
    TrimEndSpaceAfter(TrimStart(p), w);
  }

  lemma {:induction false} EffectiveSpaceBefore(w: string, p: string)
    requires AllSpace(w)
    ensures Effective([w + p]) == Effective([p])
  {
    TrimSpaceBefore(w, p);
    assert [w + p][1..] == [] && [p][1..] == [];
  }

  lemma {:induction false} EffectiveSpaceAfter(p: string, w: string)
    requires AllSpace(w)
    ensures Effective([p + w]) == Effective([p])
  {
    TrimSpaceAfter(p, w);
    assert [p + w][1..] == [] && [p][1..] == [];
  }

  /** Effective lines of a fused split, piece by piece. */
  lemma {:induction false} EffectiveFuse(a: seq<string>, b: seq<string>)
    requires |a| >= 1 && |b| >= 1
    ensures Effective(Fuse(a, b)) ==
      Effective(a[..|a| - 1]) + Effective([a[|a| - 1] + b[0]]) + Effective(b[1..])
  {
    EffectiveAppend(a[..|a| - 1] + [a[|a| - 1] + b[0]], b[1..]);
    EffectiveAppend(a[..|a| - 1], [a[|a| - 1] + b[0]]);
  }

  /** The pieces of a whitespace-only text: the last one is whitespace and
      the others contribute nothing. */
  lemma {:induction false} SpacePiecesInit(a: string)
    requires AllSpace(a)
    ensures AllSpace(Split(a)[|Split(a)| - 1])
    ensures Effective(Split(a)[..|Split(a)| - 1]) == []
  {
    SplitAllSpace(a);
    EffectiveOfSpaces(Split(a)[..|Split(a)| - 1]);
  }

  /** The pieces of a whitespace-only text: the first one is whitespace and
      the others contribute nothing. */
  lemma {:induction false} SpacePiecesTail(b: string)
    requires AllSpace(b)
    ensures AllSpace(Split(b)[0]) && Effective(Split(b)[1..]) == []
  {
    SplitAllSpace(b);
    EffectiveOfSpaces(Split(b)[1..]);
  }

  /** Fusing pieces that contribute nothing, ending in whitespace, onto the
      front of other pieces leaves what those contribute. */
  lemma {:induction false} EffectiveFuseFront(sa: seq<string>, st: seq<string>)
    requires |sa| >= 1 && |st| >= 1
    requires AllSpace(sa[|sa| - 1]) && Effective(sa[..|sa| - 1]) == []
    ensures Effective(Fuse(sa, st)) == Effective(st)
  {
    var e0, e1 := Effective([st[0]]), Effective(st[1..]);
    calc {
      Effective(Fuse(sa, st));
      == { EffectiveFuse(sa, st); EffectiveSpaceBefore(sa[|sa| - 1], st[0]); }
      [] + e0 + e1;
      == { assert [] + e0 == e0; }
      e0 + e1;
      == { EffectiveAppend([st[0]], st[1..]); HeadTail(st); }
      Effective(st);
    }
  }

  /** Fusing whitespace pieces that contribute nothing onto the back of
      other pieces leaves what those contribute. */
  lemma {:induction false} EffectiveFuseBack(st: seq<string>, sb: seq<string>)
    requires |st| >= 1 && |sb| >= 1
    requires AllSpace(sb[0]) && Effective(sb[1..]) == []
    ensures Effective(Fuse(st, sb)) == Effective(st)
  {
    var n := |st|;
    EffectiveFuse(st, sb);
    EffectiveSpaceAfter(st[n - 1], sb[0]);
    EffectiveAppend(st[..n - 1], [st[n - 1]]);
    InitLast(st);
  }

  /** Whitespace in front of a text adds no line and changes none. */
  lemma {:induction false} EffectiveSpaceFront(a: string, t: string)
    requires AllSpace(a)
    ensures Effective(Split(a + t)) == Effective(Split(t))
  {
    var sa, st := Split(a), Split(t);
    assert Split(a + t) == Fuse(sa, st) by {
      SplitAppend(a, t);
    }
    assert AllSpace(sa[|sa| - 1]) && Effective(sa[..|sa| - 1]) == [] by {
      SpacePiecesInit(a);
    }
    EffectiveFuseFront(sa, st);
  }

  /** Whitespace after a text adds no line and changes none. */
  lemma {:induction false} EffectiveSpaceBack(t: string, b: string)
    requires AllSpace(b)
    ensures Effective(Split(t + b)) == Effective(Split(t))
  {
    var st, sb := Split(t), Split(b);
    assert Split(t + b) == Fuse(st, sb) by {
      SplitAppend(t, b);
    }
    assert AllSpace(sb[0]) && Effective(sb[1..]) == [] by {
      SpacePiecesTail(b);
    }
    EffectiveFuseBack(st, sb);
  }

  /** Trimming the whole text before splitting it changes nothing about
      which lines survive: no non-blank line is lost or altered, and all
      blank ones are dropped either way. */
  lemma {:induction false} EffectiveTrimIrrelevant(s: string)
    ensures Effective(Split(Trim(s))) == Effective(Split(s))
  {
    var i, j := Lead(s), Lead(s) + |Trim(s)|;
    assert i <= j <= |s| && Trim(s) == s[i..j] && AllSpace(s[..i]) && AllSpace(s[j..]) by {
      TrimShape(s);
    }
    calc {
      Effective(Split(s));
      == { ThreeParts(s, i, j); }
      Effective(Split(s[..i] + (s[i..j] + s[j..])));
      == { EffectiveSpaceFront(s[..i], s[i..j] + s[j..]); }
      Effective(Split(s[i..j] + s[j..]));
      == { EffectiveSpaceBack(s[i..j], s[j..]); }
      Effective(Split(s[i..j]));
    }
  }

  predicate IsDigit(c: char) {
    '0' <= c <= '9'
  }

  function DigitChar(d: nat): (c: char)
    requires d < 10
    ensures IsDigit(c)
  {
    "0123456789"[d]
  }

  function DigitValue(c: char): (d: nat)
    requires IsDigit(c)
    ensures d < 10 && DigitChar(d) == c
  {
    (c - '0') as nat
  }

  /** Decimal digits of `n`, most significant first, without leading zeros. */
  function NatText(n: nat): (s: string)
    ensures s != [] && forall k :: 0 <= k < |s| ==> IsDigit(s[k])
  {
    if n < 10 then [DigitChar(n)] else NatText(n / 10) + [DigitChar(n % 10)]
  }

  /** How a template literal renders an integral number: a minus sign for
      negative values, then the decimal digits. */
  function IntText(n: int): (s: string)
    ensures s != [] && ':' !in s && '\n' !in s
  {
    var s := if n < 0 then "-" + NatText(-n) else NatText(n);
    assert forall k :: 0 <= k < |s| ==> s[k] == '-' || IsDigit(s[k]);
    s
  }

  /** Reads a non-empty run of decimal digits. */
  function ParseNat(s: string): Option<nat> {
    if s == [] || !IsDigit(s[|s| - 1]) then None
    else if |s| == 1 then Some(DigitValue(s[0]))
    else
      match ParseNat(s[..|s| - 1])
      case None => None
      case Some(high) => Some(high * 10 + DigitValue(s[|s| - 1]))
  }

  /** Reads an optionally negative decimal integer. */
  function ParseInt(s: string): Option<int> {
    if s != [] && s[0] == '-' then
      match ParseNat(s[1..])
      case None => None
      case Some(n) => Some(-(n as int))
    else
      match ParseNat(s)
      case None => None
      case Some(n) => Some(n as int)
  }

  lemma {:induction false} ParseNatText(n: nat)
    ensures ParseNat(NatText(n)) == Some(n)
  {
    if n >= 10 {
      var s, high := NatText(n), NatText(n / 10);
      assert s == high + [DigitChar(n % 10)];
      assert s[..|s| - 1] == high;
      assert DigitValue(s[|s| - 1]) == n % 10;
      ParseNatText(n / 10);
      assert ParseNat(s) == Some((n / 10) * 10 + n % 10);
    }
  }

  /** A leading minus sign negates what the digits after it read as. */
  lemma {:induction false} ParseIntMinus(d: string, m: nat)
    requires ParseNat(d) == Some(m)
    ensures ParseInt("-" + d) == Some(-(m as int))
  {
    assert ("-" + d)[1..] == d;
  }

  /** Reading back the decimal text of an integer gives the integer. */
  lemma {:induction false} ParseIntText(n: int)
    ensures ParseInt(IntText(n)) == Some(n)
  {
    if n < 0 {
      ParseNatText(-n);
      ParseIntMinus(NatText(-n), -n);
    } else {
      ParseNatText(n);
      assert IsDigit(NatText(n)[0]);
    }
  }
}

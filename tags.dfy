/** The tag-list syntax of a `tags` declaration. `tagString` splits the value
    with Java's `String.split(",\\s*")`: a comma and the run of whitespace after
    it separate two tags, nothing else is trimmed, and trailing empty pieces are
    dropped; a value without any comma is one tag, even when it is empty. */
module Tags {
  import opened Seqs

  /** The characters Java's `\s` matches: space, tab, line feed, vertical tab,
      form feed and carriage return. */
  predicate IsWhitespace(c: char) {
    c == ' ' || c == '\t' || c == '\n' || c == '\r' || c as int == 0x0B || c as int == 0x0C
  }

  /** A run of whitespace, such as the `\s*` of a separator consumes. */
  predicate Blank(w: string) {
    forall k :: 0 <= k < |w| ==> IsWhitespace(w[k])
  }

  /** The rest of `s` once the separator's `\s*` has consumed its whitespace. */
  function SkipWhitespace(s: string): (r: string)
    ensures |r| <= |s|
    decreases |s|
  {
    if s != [] && IsWhitespace(s[0]) then SkipWhitespace(s[1..]) else s
  }

  /** The run of whitespace at the start of `t`. */
  function Run(t: string): string
    decreases |t|
  {
    if t != [] && IsWhitespace(t[0]) then [t[0]] + Run(t[1..]) else []
  }

  /** The separator's `\s*` takes the whole leading run and nothing else:
      what is left does not start with whitespace. */
  lemma {:induction false} RunThenRest(t: string)
    ensures Blank(Run(t)) && Run(t) + SkipWhitespace(t) == t
    ensures SkipWhitespace(t) == [] || !IsWhitespace(SkipWhitespace(t)[0])
    decreases |t|
  {
    if t != [] && IsWhitespace(t[0]) {
      RunThenRest(t[1..]);
      var r := Run(t[1..]);
      assert Run(t) == [t[0]] + r;
      assert forall k :: 1 <= k < |Run(t)| ==> Run(t)[k] == r[k - 1];
      assert Run(t) + SkipWhitespace(t) == [t[0]] + (r + SkipWhitespace(t[1..]));
    }
  }

  /** The pieces between separators, before trailing empty pieces are dropped.
      No piece holds a comma, every piece after the first starts with something
      other than whitespace, and the first piece is a prefix of `s`. */
  function Pieces(s: string): (r: seq<string>)
    ensures |r| >= 1
    decreases |s|
  {
    if s == [] then [[]]
    else if s[0] == ',' then [[]] + Pieces(SkipWhitespace(s[1..]))
    else
      var rest := Pieces(s[1..]);
      [[s[0]] + rest[0]] + rest[1..]
  }

  /** The pieces without the empty ones at the end. */
  function DropTrailingEmpty(ps: seq<string>): (r: seq<string>)
    ensures |r| <= |ps| && r == ps[..|r|]
    ensures r == [] || r[|r| - 1] != []
    ensures forall i :: |r| <= i < |ps| ==> ps[i] == []
    decreases |ps|
  {
    if ps != [] && ps[|ps| - 1] == [] then DropTrailingEmpty(ps[..|ps| - 1]) else ps
  }

  /** `tagstring.split(",\\s*")`: with no comma the whole string; otherwise
      the pieces, without the empty ones at the end. */
  function Split(s: string): (r: seq<string>)
    ensures ',' !in s ==> r == [s]
    ensures ',' in s ==> |r| <= |Pieces(s)| && r == Pieces(s)[..|r|]
    ensures ',' in s ==> forall i :: |r| <= i < |Pieces(s)| ==> Pieces(s)[i] == []
    ensures forall i :: 0 <= i < |r| ==> ',' !in r[i]
    ensures forall i :: 1 <= i < |r| ==> r[i] == [] || !IsWhitespace(r[i][0])
    ensures ',' in s && r != [] ==> r[|r| - 1] != []
  {
    if ',' !in s then [s] else PiecesAreSeparable(s); DropTrailingEmpty(Pieces(s))
  }

  /** `tagString`: the split pieces as a set, so repeated tags collapse. */
  function TagString(s: string): (r: set<string>)
    ensures forall t :: t in r <==> t in Split(s)
    ensures forall t :: t in r ==> ',' !in t
  {
    set p | p in Split(s)
  }

  /** One whitespace run per separator. */
  ghost predicate Blanks(ws: seq<string>) {
    forall i :: 0 <= i < |ws| ==> Blank(ws[i])
  }

  /** Pieces put back together: between pieces `i` and `i + 1` a comma and
      then the run `ws[i]`, which may be empty. */
  function JoinWith(ps: seq<string>, ws: seq<string>): string
    requires |ps| >= 1 && |ws| == |ps| - 1
    decreases |ps|
  {
    if |ps| == 1 then ps[0] else ps[0] + ([','] + ws[0] + JoinWith(ps[1..], ws[1..]))
  }

  /** The whitespace each separator of `s` consumes after its comma, in order. */
  function Separators(s: string): (r: seq<string>)
    ensures |r| == |Pieces(s)| - 1
    decreases |s|
  {
    if s == [] then []
    else if s[0] == ',' then
      var u := SkipWhitespace(s[1..]);
      [Run(s[1..])] + Separators(u)
    else Separators(s[1..])
  }

  /** Pieces that can stand between separators: none holds a comma, and none
      after the first starts with whitespace, which the `\s*` would take. */
  ghost predicate Separable(ps: seq<string>) {
    && (forall i :: 0 <= i < |ps| ==> ',' !in ps[i])
    && (forall i :: 1 <= i < |ps| ==> ps[i] == [] || !IsWhitespace(ps[i][0]))
  }

  /** Ready-made pieces: separable, and when there are several the last is
      not empty. */
  ghost predicate Splittable(ps: seq<string>) {
    |ps| >= 1 && Separable(ps) && (|ps| == 1 || ps[|ps| - 1] != [])
  }

  lemma SeparableRest(ps: seq<string>)
    requires |ps| >= 1 && Separable(ps)
    ensures Separable(ps[1..]) && ',' !in ps[0]
  {
    assert forall i :: 0 <= i < |ps[1..]| ==> ps[1..][i] == ps[i + 1];
  }

  lemma BlanksRest(ws: seq<string>)
    requires |ws| >= 1 && Blanks(ws)
    ensures Blanks(ws[1..]) && Blank(ws[0])
  {
    assert forall i :: 0 <= i < |ws[1..]| ==> ws[1..][i] == ws[i + 1];
  }

  lemma {:induction false} PiecesWithoutComma(s: string)
    requires ',' !in s
    ensures Pieces(s) == [s]
    decreases |s|
  {
    if s != [] {
      assert s[0] != ',' by { assert s[0] in s; }
      assert ',' !in s[1..] by {
        forall i | 0 <= i < |s[1..]| ensures s[1..][i] != ',' { assert s[1..][i] == s[i + 1]; }
      }
      PiecesWithoutComma(s[1..]);
      assert [s[0]] + s[1..] == s;
    }
  }

  lemma {:induction false} PiecesOfPrefix(p: string, t: string)
    requires ',' !in p
    ensures Pieces(p + t) == [p + Pieces(t)[0]] + Pieces(t)[1..]
    ensures Separators(p + t) == Separators(t)
    decreases |p|
  {
    if p == [] {
      assert p + t == t;
      assert p + Pieces(t)[0] == Pieces(t)[0];
      assert [Pieces(t)[0]] + Pieces(t)[1..] == Pieces(t);
    } else {
      assert p[0] != ',' by { assert p[0] in p; }
      assert ',' !in p[1..] by {
        forall i | 0 <= i < |p[1..]| ensures p[1..][i] != ',' { assert p[1..][i] == p[i + 1]; }
      }
      assert (p + t)[0] == p[0];
      assert (p + t)[1..] == p[1..] + t;
      PiecesOfPrefix(p[1..], t);
      assert [p[0]] + (p[1..] + Pieces(t)[0]) == p + Pieces(t)[0];
    }
  }

  lemma {:induction false} JoinWithStart(ps: seq<string>, ws: seq<string>)
    requires |ps| >= 1 && |ws| == |ps| - 1
    ensures |JoinWith(ps, ws)| >= |ps[0]| && JoinWith(ps, ws)[..|ps[0]|] == ps[0]
    ensures |ps| >= 2 ==> |JoinWith(ps, ws)| > |ps[0]| && JoinWith(ps, ws)[|ps[0]|] == ','
  {
  }

  lemma JoinWithRestStart(ps: seq<string>, ws: seq<string>)
    requires |ps| >= 1 && |ws| == |ps| - 1
    requires ps[0] == [] || !IsWhitespace(ps[0][0])
    ensures JoinWith(ps, ws) == [] || !IsWhitespace(JoinWith(ps, ws)[0])
  {
    JoinWithStart(ps, ws);
    var s := JoinWith(ps, ws);
    if |ps| == 1 {
      assert s == ps[0];
    } else if ps[0] == [] {
      assert s[0] == ',';
    } else {
      assert s[..|ps[0]|][0] == s[0] == ps[0][0];
    }
  }

  /** A whitespace run in front of something that does not start with
      whitespace is consumed whole. */
  lemma {:induction false} SkipRun(w: string, j: string)
    requires Blank(w)
    requires j == [] || !IsWhitespace(j[0])
    ensures SkipWhitespace(w + j) == j && Run(w + j) == w
    decreases |w|
  {
    if w == [] {
      assert w + j == j;
    } else {
      assert (w + j)[0] == w[0] && IsWhitespace(w[0]);
      assert (w + j)[1..] == w[1..] + j;
      SkipRun(w[1..], j);
      assert [w[0]] + w[1..] == w;
    }
  }

  /** A separator of comma and run `w` in front of `j`. */
  lemma PiecesAfterSeparator(w: string, j: string)
    requires Blank(w)
    requires j == [] || !IsWhitespace(j[0])
    ensures Pieces([','] + w + j) == [[]] + Pieces(j)
    ensures Separators([','] + w + j) == [w] + Separators(j)
  {
    var t := [','] + w + j;
    assert t[1..] == w + j;
    SkipRun(w, j);
  }

  lemma JoinWithCons(c: char, ps: seq<string>, ws: seq<string>)
    requires |ps| >= 1 && |ws| == |ps| - 1
    ensures JoinWith([[c] + ps[0]] + ps[1..], ws) == [c] + JoinWith(ps, ws)
  {
    var qs := [[c] + ps[0]] + ps[1..];
    assert qs[0] == [c] + ps[0] && qs[1..] == ps[1..];
    if |ps| >= 2 {
      var tail := [','] + ws[0] + JoinWith(ps[1..], ws[1..]);
      assert JoinWith(qs, ws) == ([c] + ps[0]) + tail;
      assert JoinWith(ps, ws) == ps[0] + tail;
      AppendAssoc([c], ps[0], tail);
    }
  }

  /** Every string is its pieces joined again with its own separators, each
      a comma followed by whitespace: splitting loses nothing else. */
  lemma {:induction false} JoinOfPieces(s: string)
    ensures Blanks(Separators(s))
    ensures JoinWith(Pieces(s), Separators(s)) == s
    decreases |s|
  {
    if s == [] {
    } else if s[0] == ',' {
      JoinOfPieces(SkipWhitespace(s[1..]));
      JoinAtComma(s);
    } else {
      JoinOfPieces(s[1..]);
      JoinAtChar(s);
    }
  }

  /** `Pieces` and `Separators` at a leading comma. */
  lemma UnfoldAtComma(s: string)
    requires s != [] && s[0] == ','
    ensures Pieces(s) == [[]] + Pieces(SkipWhitespace(s[1..]))
    ensures Separators(s) == [Run(s[1..])] + Separators(SkipWhitespace(s[1..]))
  {
    SeparatorsAtComma(s);
  }

  lemma SeparatorsAtComma(s: string)
    requires s != [] && s[0] == ','
    ensures Separators(s) == [Run(s[1..])] + Separators(SkipWhitespace(s[1..]))
  {
  }

  /** `Pieces` and `Separators` at a leading character other than a comma. */
  lemma UnfoldAtChar(s: string)
    requires s != [] && s[0] != ','
    ensures var ps := Pieces(s[1..]);
      && Pieces(s) == [[s[0]] + ps[0]] + ps[1..]
      && Separators(s) == Separators(s[1..])
  {
  }

  /** No piece holds a comma, no piece after the first starts with
      whitespace, and the first piece is a prefix of `s`. */
  lemma {:induction false} PiecesAreSeparable(s: string)
    ensures Separable(Pieces(s))
    ensures |Pieces(s)[0]| <= |s| && Pieces(s)[0] == s[..|Pieces(s)[0]|]
    decreases |s|
  {
    if s == [] {
    } else if s[0] == ',' {
      PiecesAreSeparable(SkipWhitespace(s[1..]));
      SeparableAtComma(s);
    } else {
      PiecesAreSeparable(s[1..]);
      SeparableAtChar(s);
    }
  }

  /** The step of `PiecesAreSeparable` at a separator. */
  lemma SeparableAtComma(s: string)
    requires s != [] && s[0] == ','
    requires Separable(Pieces(SkipWhitespace(s[1..])))
    ensures Separable(Pieces(s)) && Pieces(s)[0] == []
  {
    var u := SkipWhitespace(s[1..]);
    UnfoldAtComma(s);
    RunThenRest(s[1..]);
    PiecesStart(u);
    SeparableCons([], Pieces(u));
  }

  /** The step of `PiecesAreSeparable` at any other character. */
  lemma SeparableAtChar(s: string)
    requires s != [] && s[0] != ','
    requires Separable(Pieces(s[1..]))
    requires |Pieces(s[1..])[0]| <= |s[1..]| && Pieces(s[1..])[0] == s[1..][..|Pieces(s[1..])[0]|]
    ensures Separable(Pieces(s))
    ensures |Pieces(s)[0]| <= |s| && Pieces(s)[0] == s[..|Pieces(s)[0]|]
  {
    var ps := Pieces(s[1..]);
    UnfoldAtChar(s);
    assert ',' !in [s[0]] + ps[0] by { assert ',' !in ps[0]; }
    SeparableCons([s[0]] + ps[0], ps[1..]) by { SeparableRest(ps); }
    PrefixCons(s, ps[0]);
  }

  lemma PrefixCons(s: string, p: string)
    requires s != [] && |p| <= |s| - 1 && p == s[1..][..|p|]
    ensures [s[0]] + p == s[..|p| + 1]
  {
    var q := [s[0]] + p;
    assert forall k :: 1 <= k < |q| ==> q[k] == p[k - 1] == s[k];
  }

  /** The first piece of a string that does not start with whitespace does
      not start with whitespace either. */
  lemma PiecesStart(u: string)
    requires u == [] || !IsWhitespace(u[0])
    ensures Pieces(u)[0] == [] || !IsWhitespace(Pieces(u)[0][0])
  {
    if u != [] && u[0] != ',' {
      UnfoldAtChar(u);
    }
  }

  lemma SeparableCons(p: string, ps: seq<string>)
    requires ',' !in p && Separable(ps) && (|ps| == 0 || ps[0] == [] || !IsWhitespace(ps[0][0]))
    ensures Separable([p] + ps)
  {
    var qs := [p] + ps;
    assert forall i :: 1 <= i < |qs| ==> qs[i] == ps[i - 1];
  }

  /** The step of `JoinOfPieces` at a separator. */
  lemma JoinAtComma(s: string)
    requires s != [] && s[0] == ','
    requires var u := SkipWhitespace(s[1..]);
      Blanks(Separators(u)) && JoinWith(Pieces(u), Separators(u)) == u
    ensures Blanks(Separators(s))
    ensures JoinWith(Pieces(s), Separators(s)) == s
  {
    var t := s[1..];
    var u := SkipWhitespace(t);
    var w := Run(t);
    RunThenRest(t);
    UnfoldAtComma(s);
    JoinAfterComma(w, Pieces(u), Separators(u));
    assert t == w + u;
    assert s == [','] + t;
  }

  /** The step of `JoinOfPieces` at any other character. */
  lemma JoinAtChar(s: string)
    requires s != [] && s[0] != ','
    requires Blanks(Separators(s[1..])) && JoinWith(Pieces(s[1..]), Separators(s[1..])) == s[1..]
    ensures Blanks(Separators(s))
    ensures JoinWith(Pieces(s), Separators(s)) == s
  {
    var ps := Pieces(s[1..]);
    UnfoldAtChar(s);
    JoinWithCons(s[0], ps, Separators(s[1..]));
    assert s == [s[0]] + s[1..];
  }

  /** An empty piece, then a comma and the run `w`, in front of joined pieces. */
  lemma JoinAfterComma(w: string, ps: seq<string>, ws: seq<string>)
    requires |ps| >= 1 && |ws| == |ps| - 1 && Blank(w) && Blanks(ws)
    ensures Blanks([w] + ws)
    ensures JoinWith([[]] + ps, [w] + ws) == [','] + (w + JoinWith(ps, ws))
  {
    var qs, vs := [[]] + ps, [w] + ws;
    assert qs[0] == [] && qs[1..] == ps && vs[0] == w && vs[1..] == ws;
    BlanksCons(w, ws);
    JoinWithStep(qs, vs);
    var j := JoinWith(ps, ws);
    assert JoinWith(qs, vs) == [] + ([','] + w + j);
    AppendAssoc([','], w, j);
  }

  lemma BlanksCons(w: string, ws: seq<string>)
    requires Blank(w) && Blanks(ws)
    ensures Blanks([w] + ws)
  {
    var vs := [w] + ws;
    assert forall i :: 1 <= i < |vs| ==> vs[i] == ws[i - 1];
  }

  /** Conversely, pieces joined with any comma-and-whitespace separators split
      back into those pieces and separators, provided no piece holds a comma
      and no piece after the first starts with whitespace. */
  lemma {:induction false} PiecesOfJoinWith(ps: seq<string>, ws: seq<string>)
    requires |ps| >= 1 && |ws| == |ps| - 1 && Blanks(ws) && Separable(ps)
    ensures Pieces(JoinWith(ps, ws)) == ps
    ensures Separators(JoinWith(ps, ws)) == ws
    decreases |ps|
  {
    if |ps| == 1 {
      PiecesWithoutComma(ps[0]);
    } else {
      var rest, wrest := ps[1..], ws[1..];
      SeparableRest(ps);
      BlanksRest(ws);
      PiecesOfJoinWith(rest, wrest);
      JoinWithRestStart(rest, wrest);
      PiecesOfSeparated(ps[0], ws[0], JoinWith(rest, wrest));
      JoinWithStep(ps, ws);
    }
  }

  lemma JoinWithStep(ps: seq<string>, ws: seq<string>)
    requires |ps| >= 2 && |ws| == |ps| - 1
    ensures JoinWith(ps, ws) == ps[0] + ([','] + ws[0] + JoinWith(ps[1..], ws[1..]))
    ensures ps == [ps[0]] + ps[1..] && ws == [ws[0]] + ws[1..]
  {
  }

  /** One more piece in front of a separator: `p`, a comma, the run `w` and
      then `j` split into `p` and the pieces of `j`. */
  lemma PiecesOfSeparated(p: string, w: string, j: string)
    requires ',' !in p && Blank(w)
    requires j == [] || !IsWhitespace(j[0])
    ensures Pieces(p + ([','] + w + j)) == [p] + Pieces(j)
    ensures Separators(p + ([','] + w + j)) == [w] + Separators(j)
  {
    PiecesAfterSeparator(w, j);
    PiecesOfPrefix(p, [','] + w + j);
    assert p + [] == p;
  }

  /** Splitting joined tags gives them back, whatever whitespace follows each
      comma. */
  lemma SplitOfJoinWith(ps: seq<string>, ws: seq<string>)
    requires Splittable(ps) && |ws| == |ps| - 1 && Blanks(ws)
    ensures Split(JoinWith(ps, ws)) == ps
  {
    if |ps| >= 2 {
      JoinWithStart(ps, ws);
      assert ',' in JoinWith(ps, ws);
      PiecesOfJoinWith(ps, ws);
    }
  }

  /** What `Split` returns is always ready-made, so joining it again with
      any separators and splitting changes nothing. */
  lemma SplitIsStable(s: string, ws: seq<string>)
    requires Split(s) != [] && |ws| == |Split(s)| - 1 && Blanks(ws)
    ensures Splittable(Split(s))
    ensures Split(JoinWith(Split(s), ws)) == Split(s)
  {
    SplitOfJoinWith(Split(s), ws);
  }

  /** The tags of joined ready-made pieces are exactly those pieces. */
  lemma TagsOfJoinWith(ps: seq<string>, ws: seq<string>)
    requires Splittable(ps) && |ws| == |ps| - 1 && Blanks(ws)
    ensures TagString(JoinWith(ps, ws)) == set p | p in ps
  {
    SplitOfJoinWith(ps, ws);
  }

  /** Two tags around one separator. */
  lemma TagsOfTwo(a: string, w: string, b: string)
    requires ',' !in a && ',' !in b && Blank(w)
    requires b != [] && !IsWhitespace(b[0])
    ensures TagString(a + ([','] + w + b)) == {a, b}
  {
    var ps := [a, b];
    assert Splittable(ps) && Blanks([w]);
    TagsOfJoinWith(ps, [w]);
    assert JoinWith(ps, [w]) == a + ([','] + w + b);
  }

  /** The list `a, b` of the format's example is the tags `a` and `b`. */
  lemma ExampleCommaSpace(s: string)
    requires s == "a, b"
    ensures TagString(s) == {"a", "b"}
  {
    assert s[..1] + ([','] + s[2..3] + s[3..]) == s;
    TagsOfTwo(s[..1], s[2..3], s[3..]);
    assert s[..1] == "a" && s[3..] == "b";
  }

  /** The whitespace after a comma may be absent. */
  lemma ExampleNoSpace(s: string)
    requires s == "a,b"
    ensures TagString(s) == {"a", "b"}
  {
    assert s[..1] + ([','] + s[2..2] + s[2..]) == s;
    TagsOfTwo(s[..1], s[2..2], s[2..]);
    assert s[..1] == "a" && s[2..] == "b";
  }

  /** Any run of whitespace after a comma belongs to the separator. */
  lemma ExampleTabs(s: string)
    requires s == "a,\t\tb"
    ensures TagString(s) == {"a", "b"}
  {
    assert s[..1] + ([','] + s[2..4] + s[4..]) == s;
    TagsOfTwo(s[..1], s[2..4], s[4..]);
    assert s[..1] == "a" && s[4..] == "b";
  }

  /** A space before a comma stays in the tag. */
  lemma ExampleUntrimmed(s: string)
    requires s == "a , b"
    ensures TagString(s) == {"a ", "b"}
  {
    assert s[..2] + ([','] + s[3..4] + s[4..]) == s;
    TagsOfTwo(s[..2], s[3..4], s[4..]);
    assert s[..2] == "a " && s[4..] == "b";
  }

  /** A leading comma gives an empty tag. */
  lemma ExampleLeadingComma(s: string)
    requires s == ",a"
    ensures TagString(s) == {"", "a"}
  {
    var a, w, b := s[..0], s[1..1], s[1..];
    assert a == [] && w == [] && b == ['a'];
    assert ',' !in a && Blank(w);
    assert ',' !in b && b != [] && !IsWhitespace(b[0]) by { assert b[0] == 'a' && |b| == 1; }
    assert a + ([','] + w + b) == s;
    TagsOfTwo(a, w, b);
  }

  /** Repeated tags collapse. */
  lemma ExampleRepeated(s: string)
    requires s == "x, x"
    ensures TagString(s) == {"x"}
  {
    assert s[..1] + ([','] + s[2..3] + s[3..]) == s;
    TagsOfTwo(s[..1], s[2..3], s[3..]);
    assert s[..1] == "x" && s[3..] == "x";
  }

  /** Empty pieces at the end are dropped. */
  lemma ExampleTrailingCommas(s: string)
    requires s == "a,,"
    ensures TagString(s) == {"a"}
  {
    var a, e := s[..1], s[3..];
    assert e == [] && Blank(e) && ',' !in a;
    PiecesOfThree(a, e, e, e, e);
    assert a + ([','] + e + (e + ([','] + e + e))) == s;
    assert s[1] == ',';
    DropEmpties(a);
    assert a == "a";
  }

  /** Three comma-free pieces around two separators. */
  lemma PiecesOfThree(a: string, w: string, b: string, v: string, c: string)
    requires ',' !in a && ',' !in b && ',' !in c && Blank(w) && Blank(v)
    requires b == [] || !IsWhitespace(b[0])
    requires c == [] || !IsWhitespace(c[0])
    ensures Pieces(a + ([','] + w + (b + ([','] + v + c)))) == [a, b, c]
  {
    PiecesWithoutComma(c);
    PiecesOfSeparated(b, v, c);
    var j := b + ([','] + v + c);
    assert j == [] || !IsWhitespace(j[0]) by {
      if b == [] { assert j[0] == ','; } else { assert j[0] == b[0]; }
    }
    PiecesOfSeparated(a, w, j);
  }

  lemma DropEmpties(a: string)
    requires a != []
    ensures DropTrailingEmpty([a, [], []]) == [a]
  {
    var ps: seq<string> := [a, [], []];
    assert ps[..2] == [a, []] && [a, []][..1] == [a];
    assert DropTrailingEmpty([a]) == [a];
  }

  /** A lone comma gives no tag at all. */
  lemma ExampleOnlyComma(s: string)
    requires s == ","
    ensures TagString(s) == {}
  {
    var ps, ws := ["", ""], [""];
    assert Blanks(ws);
    PiecesOfJoinWith(ps, ws);
    assert JoinWith(ps, ws) == s;
    assert s[0] == ',';
    assert DropTrailingEmpty(ps) == DropTrailingEmpty([""]) == DropTrailingEmpty([]);
    assert Split(s) == [];
  }

  /** An empty list has no comma, so it is one empty tag. */
  lemma ExampleEmpty()
    ensures TagString("") == {""}
  {
  }
}

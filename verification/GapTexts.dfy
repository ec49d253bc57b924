/** Whitespace and comments: what the reader skips is what the grammar lets stand (reader.h). */
module GapTexts {
  import opened Bytes
  import opened Encodings
  import opened Events
  import opened Options
  import opened Scanner
  import opened Grammar

  // ----- whitespace and comments

  /**
   * Whitespace is skipped up to the first byte that is none of 0x20, 0x09, 0x0A and 0x0D.
   */
  lemma {:induction false} SkipsToFirst(s: Text, pos: nat, r: nat)
    requires pos <= |s|
    ensures SkipWhitespace(s, pos) == r <==>
      && pos <= r <= |s| && (forall k | pos <= k < r :: s[k] in {0x20, 0x09, 0x0A, 0x0D})
      && (r < |s| ==> s[r] !in {0x20, 0x09, 0x0A, 0x0D})
    decreases |s| - pos
  {
    if pos < |s| && s[pos] in {0x20, 0x09, 0x0A, 0x0D} {
      SkipsToFirst(s, pos + 1, r);
    }
  }

  /** A character that can stand behind whitespace and comments. */
  predicate Solid(c: byte) {
    c != 0x20 && c != 0x09 && c != 0x0A && c != 0x0D && c != 0x2F
  }

  function SkipBoth(s: Text, pos: nat): (r: Option<nat>)
    requires pos <= |s|
  {
    SkipComments(s, SkipWhitespace(s, pos))
  }

  lemma {:induction false} BlankSkipped(s: Text, pos: nat)
    requires pos < |s| && s[pos] in {0x20, 0x09, 0x0A, 0x0D}
    ensures SkipWhitespace(s, pos) == SkipWhitespace(s, pos + 1)
  {
  }

  lemma {:induction false} BlockSkipped(s: Text, pos: nat, body: Text)
    requires StandsAt(s, pos, body + [0x2A, 0x2F]) && BlockBody(body)
    ensures SkipBlockComment(s, pos) == Some(pos + |body| + 2)
    decreases |body|
  {
    var all := body + [0x2A, 0x2F];
    FirstAt(s, pos, all, 0);
    FirstAt(s, pos, all, 1);
    if body != [] {
      assert all[1..] == body[1..] + [0x2A, 0x2F];
      assert |body| > 1 ==> all[1] == body[1];
      BlockSkipped(s, pos + 1, body[1..]);
    }
  }

  lemma {:induction false} LineSkipped(s: Text, pos: nat, body: Text)
    requires StandsAt(s, pos, body) && LineBody(body)
    requires At(s, pos + |body|) == 0x0A || At(s, pos + |body|) == 0
    ensures SkipLineComment(s, pos) == if At(s, pos + |body|) == 0 then pos + |body| else pos + |body| + 1
    decreases |body|
  {
    if body != [] {
      FirstAt(s, pos, body, 0);
      LineSkipped(s, pos + 1, body[1..]);
    }
  }

  lemma {:induction false} SpaceSkipped(p: Profile, s: Text, pos: nat, space: Space)
    requires StandsAt(s, pos, SpaceText(space)) && ValidSpace(p, space)
    ensures SkipBoth(s, pos) == SkipBoth(s, pos + |SpaceText(space)|)
  {
    hide SkipBlockComment, SkipLineComment, StandsAt;
    var t := SpaceText(space);
    FirstAt(s, pos, t, 0);
    match space {
      case Blank(c) => BlankSkipped(s, pos);
      case Block(body) =>
        FirstAt(s, pos, t, 1);
        assert t == [0x2F, 0x2A] + (body + [0x2A, 0x2F]);
        StandsAtSplit(s, pos, [0x2F, 0x2A], body + [0x2A, 0x2F]);
        BlockSkipped(s, pos + 2, body);
      case Line(body) =>
        FirstAt(s, pos, t, 1);
        assert t == [0x2F, 0x2F] + (body + [0x0A]);
        StandsAtSplit(s, pos, [0x2F, 0x2F], body + [0x0A]);
        StandsAtSplit(s, pos + 2, body, [0x0A]);
        FirstAt(s, pos + 2 + |body|, [0x0A], 0);
        LineSkipped(s, pos + 2, body);
    }
  }

  lemma {:induction false} GapCons(g: Gap)
    requires g != []
    ensures GapText(g) == SpaceText(g[0]) + GapText(g[1..])
  {
  }

  lemma {:induction false} GapSkipped(p: Profile, s: Text, pos: nat, g: Gap)
    requires StandsAt(s, pos, GapText(g)) && ValidGap(p, g)
    ensures SkipBoth(s, pos) == SkipBoth(s, pos + |GapText(g)|)
    ensures !p.comments ==> SkipWhitespace(s, pos) == SkipWhitespace(s, pos + |GapText(g)|)
    decreases |g|
  {
    hide SkipBoth, StandsAt, SkipWhitespace;
    if g != [] {
      GapCons(g);
      StandsAtSplit(s, pos, SpaceText(g[0]), GapText(g[1..]));
      SpaceSkipped(p, s, pos, g[0]);
      if !p.comments {
        FirstAt(s, pos, SpaceText(g[0]), 0);
        BlankSkipped(s, pos);
      }
      GapSkipped(p, s, pos + |SpaceText(g[0])|, g[1..]);
    }
  }

  /** A gap in front of anything solid is skipped. */
  lemma {:induction false} GapPassed(env: Env, p: Profile, pos: nat, g: Gap)
    requires p.comments == env.flags.comments && StandsAt(env.src, pos, GapText(g)) && ValidGap(p, g)
    requires Solid(At(env.src, pos + |GapText(g)|))
    ensures SkipWhitespaceAndComments(env, pos) == Some(pos + |GapText(g)|)
  {
    GapSkipped(p, env.src, pos, g);
  }

  /** And one at the end of the input, with a line comment that is not ended. */
  lemma {:induction false} TailPassed(env: Env, p: Profile, pos: nat, g: Gap, unended: Option<Text>)
    requires p.comments == env.flags.comments && StandsAt(env.src, pos, GapText(g) + UnendedText(unended))
    requires ValidGap(p, g) && (unended.Some? ==> p.comments && LineBody(unended.value))
    requires At(env.src, pos + |GapText(g) + UnendedText(unended)|) == 0
    ensures SkipWhitespaceAndComments(env, pos) == Some(pos + |GapText(g) + UnendedText(unended)|)
  {
    hide StandsAt, SkipComments, SkipWhitespace;
    StandsAtSplit(env.src, pos, GapText(g), UnendedText(unended));
    GapSkipped(p, env.src, pos, g);
    UnendedSkipped(env.src, pos + |GapText(g)|, unended);
  }

  lemma {:induction false} UnendedSkipped(s: Text, pos: nat, unended: Option<Text>)
    requires StandsAt(s, pos, UnendedText(unended)) && (unended.Some? ==> LineBody(unended.value))
    requires At(s, pos + |UnendedText(unended)|) == 0
    ensures SkipBoth(s, pos) == Some(pos + |UnendedText(unended)|)
    ensures unended.None? ==> SkipWhitespace(s, pos) == pos
  {
    hide SkipLineComment, StandsAt;
    NulSkipped(s, pos + |UnendedText(unended)|);
    if unended.Some? {
      FirstAt(s, pos, UnendedText(unended), 0);
      FirstAt(s, pos, UnendedText(unended), 1);
      StandsAtSplit(s, pos, [0x2F, 0x2F], unended.value);
      LineSkipped(s, pos + 2, unended.value);
    }
  }

  lemma {:induction false} GapAppend(a: Gap, b: Gap)
    ensures GapText(a + b) == GapText(a) + GapText(b)
    decreases |a|
  {
    if a == [] {
      assert a + b == b;
    } else {
      assert (a + b)[1..] == a[1..] + b;
      GapAppend(a[1..], b);
    }
  }

  /** Blanks up to where whitespace ends. */
  lemma {:induction false} BlanksTaken(p: Profile, s: Text, pos: nat) returns (g: Gap)
    requires pos <= |s|
    ensures ValidGap(p, g) && StandsAt(s, pos, GapText(g)) && SkipWhitespace(s, pos) == pos + |GapText(g)|
    decreases |s| - pos
  {
    g := [];
    if pos < |s| && IsWhitespace(s[pos]) {
      var rest := BlanksTaken(p, s, pos + 1);
      g := [Blank(s[pos])] + rest;
      GapCons(g);
      assert g[1..] == rest;
      assert StandsAt(s, pos, [s[pos]]);
      StandsAtSplit(s, pos, [s[pos]], GapText(rest));
    }
  }

  lemma {:induction false} BlockTaken(s: Text, pos: nat) returns (body: Text)
    requires SkipBlockComment(s, pos).Some?
    ensures BlockBody(body) && StandsAt(s, pos, body + [0x2A, 0x2F])
    ensures SkipBlockComment(s, pos).value == pos + |body| + 2
    decreases |s| - pos
  {
    if s[pos] == 0x2A && At(s, pos + 1) == 0x2F {
      body := [];
      assert body + [0x2A, 0x2F] == [0x2A, 0x2F];
      StandsAtSlice(s, pos, [0x2A, 0x2F]);
      assert s[pos..pos + 2] == [0x2A, 0x2F];
    } else {
      var rest := BlockTaken(s, pos + 1);
      body := [s[pos]] + rest;
      var all := rest + [0x2A, 0x2F];
      FirstAt(s, pos + 1, all, 0);
      assert body + [0x2A, 0x2F] == [s[pos]] + all;
      assert StandsAt(s, pos, [s[pos]]);
      StandsAtSplit(s, pos, [s[pos]], all);
      forall i | 0 <= i < |body| - 1 ensures !(body[i] == 0x2A && body[i + 1] == 0x2F) {
        if i > 0 {
          assert body[i] == rest[i - 1] && body[i + 1] == rest[i];
        }
      }
    }
  }

  lemma {:induction false} LineTaken(s: Text, pos: nat) returns (body: Text)
    requires pos <= |s|
    ensures LineBody(body) && StandsAt(s, pos, body)
    ensures At(s, pos + |body|) == 0 || At(s, pos + |body|) == 0x0A
    ensures SkipLineComment(s, pos) == if At(s, pos + |body|) == 0 then pos + |body| else pos + |body| + 1
    decreases |s| - pos
  {
    body := [];
    if At(s, pos) != 0 && At(s, pos) != 0x0A {
      var rest := LineTaken(s, pos + 1);
      body := [s[pos]] + rest;
      assert StandsAt(s, pos, [s[pos]]);
      StandsAtSplit(s, pos, [s[pos]], rest);
    }
  }

  /** A gap, and perhaps a line comment not ended, stand from `pos` to `end`. */
  ghost predicate Gapped(p: Profile, s: Text, pos: nat, g: Gap, unended: Option<Text>, end: nat) {
    && ValidGap(p, g) && StandsAt(s, pos, GapText(g) + UnendedText(unended))
    && end == pos + |GapText(g) + UnendedText(unended)|
    && (unended.Some? ==> p.comments && LineBody(unended.value) && At(s, end) == 0)
  }

  lemma {:induction false} GapAndMore(p: Profile, s: Text, pos: nat, a: Gap, mid: nat, g: Gap, unended: Option<Text>,
                                      end: nat)
    requires StandsAt(s, pos, GapText(a)) && ValidGap(p, a) && mid == pos + |GapText(a)|
    requires Gapped(p, s, mid, g, unended, end)
    ensures Gapped(p, s, pos, a + g, unended, end)
  {
    hide StandsAt, GapText, UnendedText, LineBody, ValidSpace;
    GapAppend(a, g);
    StandsAtSplit(s, pos, GapText(a), GapText(g) + UnendedText(unended));
    assert GapText(a + g) + UnendedText(unended) == GapText(a) + (GapText(g) + UnendedText(unended));
  }

  lemma {:induction false} OneGap(space: Space)
    ensures GapText([space]) == SpaceText(space)
  {
    GapCons([space]);
    assert SpaceText(space) + [] == SpaceText(space);
  }

  /** What comments and the whitespace behind them were skipped. */
  lemma {:induction false} CommentsTaken(p: Profile, s: Text, pos: nat) returns (g: Gap, unended: Option<Text>)
    requires pos <= |s| && p.comments && SkipComments(s, pos).Some?
    ensures Gapped(p, s, pos, g, unended, SkipComments(s, pos).value)
    decreases |s| - pos, 1
  {
    hide StandsAt, SkipBlockComment, SkipLineComment, SkipWhitespace, Gapped;
    g, unended := [], None;
    if At(s, pos) != 0x2F {
      NothingStands(p, s, pos);
    } else if At(s, pos + 1) == 0x2A {
      var body := BlockTaken(s, pos + 2);
      BlockStands(s, pos, body);
      BlockIs(s, pos, body);
      g, unended := CommentAndMore(p, s, pos, Block(body));
    } else {
      g, unended := LineCommentTaken(p, s, pos);
    }
  }

  lemma {:induction false} BlockIs(s: Text, pos: nat, body: Text)
    requires pos <= |s| && At(s, pos) == 0x2F && At(s, pos + 1) == 0x2A
    requires SkipBlockComment(s, pos + 2) == Some(pos + |SpaceText(Block(body))|)
    ensures pos + |SpaceText(Block(body))| <= |s|
    ensures SkipComments(s, pos) == SkipBoth(s, pos + |SpaceText(Block(body))|)
  {
    hide SkipBlockComment, SkipWhitespace, SpaceText;
  }

  /** A line comment, ended or not. */
  lemma {:induction false} LineCommentTaken(p: Profile, s: Text, pos: nat) returns (g: Gap, unended: Option<Text>)
    requires pos <= |s| && p.comments && SkipComments(s, pos).Some?
    requires At(s, pos) == 0x2F && At(s, pos + 1) != 0x2A
    ensures Gapped(p, s, pos, g, unended, SkipComments(s, pos).value)
    decreases |s| - pos, 0
  {
    hide StandsAt, SkipBlockComment, SkipLineComment, SkipWhitespace, Gapped;
    g, unended := [], None;
    var body := LineTaken(s, pos + 2);
    var e := pos + 2 + |body|;
    LineStands(s, pos, body);
    if At(s, e) == 0 {
      unended := Some(body);
      NulSkipped(s, e);
      UnendedStands(p, s, pos, body);
    } else {
      g, unended := CommentAndMore(p, s, pos, Line(body));
    }
  }

  /** A comment, and what is skipped behind it. */
  lemma {:induction false} CommentAndMore(p: Profile, s: Text, pos: nat, space: Space)
      returns (g: Gap, unended: Option<Text>)
    requires StandsAt(s, pos, SpaceText(space)) && ValidSpace(p, space) && p.comments
    requires SkipBoth(s, pos + |SpaceText(space)|).Some? && space.Blank? == false
    ensures Gapped(p, s, pos, g, unended, SkipBoth(s, pos + |SpaceText(space)|).value)
    decreases |s| - pos - 1
  {
    hide StandsAt, SkipComments, SkipWhitespace, Gapped;
    var e := pos + |SpaceText(space)|;
    var ws := BlanksTaken(p, s, e);
    g, unended := CommentsTaken(p, s, SkipWhitespace(s, e));
    var end := SkipBoth(s, e).value;
    GapAndMore(p, s, e, ws, SkipWhitespace(s, e), g, unended, end);
    OneGap(space);
    GapAndMore(p, s, pos, [space], e, ws + g, unended, end);
    g := [space] + (ws + g);
  }

  lemma {:induction false} NothingStands(p: Profile, s: Text, pos: nat)
    requires pos <= |s|
    ensures Gapped(p, s, pos, [], None, pos)
  {
    assert GapText([]) + UnendedText(None) == [];
  }

  lemma {:induction false} UnendedStands(p: Profile, s: Text, pos: nat, body: Text)
    requires StandsAt(s, pos, UnendedText(Some(body))) && p.comments && LineBody(body)
    requires At(s, pos + 2 + |body|) == 0
    ensures Gapped(p, s, pos, [], Some(body), pos + 2 + |body|)
  {
    assert GapText([]) + UnendedText(Some(body)) == UnendedText(Some(body));
  }

  lemma {:induction false} NulSkipped(s: Text, pos: nat)
    requires pos <= |s| && At(s, pos) == 0
    ensures SkipWhitespace(s, pos) == pos && SkipComments(s, pos) == Some(pos)
  {
  }

  lemma {:induction false} BlockStands(s: Text, pos: nat, body: Text)
    requires At(s, pos) == 0x2F && At(s, pos + 1) == 0x2A && StandsAt(s, pos + 2, body + [0x2A, 0x2F])
    ensures StandsAt(s, pos, SpaceText(Block(body)))
  {
    StandsAtSlice(s, pos, [0x2F, 0x2A]);
    assert s[pos..pos + 2] == [0x2F, 0x2A];
    StandsAtSplit(s, pos, [0x2F, 0x2A], body + [0x2A, 0x2F]);
    assert [0x2F, 0x2A] + (body + [0x2A, 0x2F]) == SpaceText(Block(body));
  }

  lemma {:induction false} LineStands(s: Text, pos: nat, body: Text)
    requires At(s, pos) == 0x2F && At(s, pos + 1) == 0x2F && StandsAt(s, pos + 2, body)
    ensures StandsAt(s, pos, UnendedText(Some(body)))
    ensures At(s, pos + 2 + |body|) == 0x0A ==> StandsAt(s, pos, SpaceText(Line(body)))
  {
    StandsAtSlice(s, pos, [0x2F, 0x2F]);
    assert s[pos..pos + 2] == [0x2F, 0x2F];
    StandsAtSplit(s, pos, [0x2F, 0x2F], body);
    if At(s, pos + 2 + |body|) == 0x0A {
      assert StandsAt(s, pos + 2 + |body|, [0x0A]);
      StandsAtSplit(s, pos, [0x2F, 0x2F] + body, [0x0A]);
    }
  }

  /** Whatever was skipped is a gap, unless a line comment ran to the end of the input. */
  lemma {:induction false} TailTaken(env: Env, p: Profile, pos: nat) returns (g: Gap, unended: Option<Text>)
    requires pos <= |env.src| && p.comments == env.flags.comments && SkipWhitespaceAndComments(env, pos).Some?
    ensures Gapped(p, env.src, pos, g, unended, SkipWhitespaceAndComments(env, pos).value)
  {
    hide StandsAt, SkipComments, SkipWhitespace;
    g := BlanksTaken(p, env.src, pos);
    unended := None;
    if env.flags.comments {
      var more, mid := [], SkipWhitespace(env.src, pos);
      more, unended := CommentsTaken(p, env.src, mid);
      GapAndMore(p, env.src, pos, g, mid, more, unended, SkipWhitespaceAndComments(env, pos).value);
      g := g + more;
    } else {
      assert GapText(g) + [] == GapText(g);
    }
  }

  /** In front of anything but the end it is a gap. */
  lemma {:induction false} GapTaken(env: Env, p: Profile, pos: nat) returns (g: Gap)
    requires pos <= |env.src| && p.comments == env.flags.comments && SkipWhitespaceAndComments(env, pos).Some?
    requires At(env.src, SkipWhitespaceAndComments(env, pos).value) != 0
    ensures ValidGap(p, g) && StandsAt(env.src, pos, GapText(g))
    ensures SkipWhitespaceAndComments(env, pos).value == pos + |GapText(g)|
  {
    hide StandsAt, SkipWhitespaceAndComments;
    var unended;
    g, unended := TailTaken(env, p, pos);
    assert GapText(g) + [] == GapText(g);
  }
}

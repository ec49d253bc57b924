/** Reading and writing trees through pointers (Get, Create and Set of pointer.h), and their lens laws. */
module PointerTree {
  import opened Bytes
  import opened Events
  import opened Document
  import P = Pointer
  import opened Options

  /** Tokens as parsing makes them: the index belongs to the name. */
  predicate Parsed(ts: seq<P.Token>) { P.Indexed(ts) }

  predicate HasIndex(t: P.Token) { t.index != P.INVALID_INDEX }

  /** The characters of a token's name that its length field counts, which are all the tree functions look at. */
  function NameOf(t: P.Token): Text { P.Cut(t.name) }

  predicate IsDash(t: P.Token) { NameOf(t) == [MINUS] }

  /** The first member of that name, or the number of members. */
  function FindMember(members: seq<Member>, name: Text): (k: nat)
    ensures k <= |members|
    ensures k < |members| ==> members[k].name == name
    ensures forall j | 0 <= j < k :: members[j].name != name
  {
    if members == [] then 0 else if members[0].name == name then 0 else 1 + FindMember(members[1..], name)
  }

  /** Where a token leads in a container: an element, or a member. */
  datatype Place = Element(i: nat) | MemberAt(k: nat) | Nowhere

  function Lookup(v: Value, t: P.Token): (p: Place)
    ensures p.Element? ==> v.ArrayValue? && p.i < |v.elements|
    ensures p.MemberAt? ==> v.ObjectValue? && p.k < |v.members|
  {
    match v
    case ObjectValue(members) =>
      var k := FindMember(members, NameOf(t));
      if k == |members| then Nowhere else MemberAt(k)
    case ArrayValue(elements) =>
      if !HasIndex(t) || t.index >= |elements| then Nowhere else Element(t.index)
    case _ => Nowhere
  }

  function Child(v: Value, p: Place): Value
    requires p.Element? ==> v.ArrayValue? && p.i < |v.elements|
    requires p.MemberAt? ==> v.ObjectValue? && p.k < |v.members|
    requires !p.Nowhere?
  {
    if p.Element? then v.elements[p.i] else v.members[p.k].value
  }

  /** The value with one child replaced. */
  function Replace(v: Value, p: Place, x: Value): Value
    requires p.Element? ==> v.ArrayValue? && p.i < |v.elements|
    requires p.MemberAt? ==> v.ObjectValue? && p.k < |v.members|
    requires !p.Nowhere?
  {
    if p.Element? then ArrayValue(v.elements[p.i := x])
    else ObjectValue(v.members[p.k := Member(v.members[p.k].name, x)])
  }

  /** The value a pointer resolves to. */
  function Get(v: Value, ts: seq<P.Token>): Option<Value> {
    if ts == [] then Some(v)
    else
      var p := Lookup(v, ts[0]);
      if p.Nowhere? then None else Get(Child(v, p), ts[1..])
  }

  // ----- Create and Set

  /** The change of type Create makes before it looks for a token's place. */
  function Retyped(v: Value, t: P.Token): Value {
    if !HasIndex(t) then (if v.ObjectValue? then v else ObjectValue([]))
    else if v.ArrayValue? || v.ObjectValue? then v
    else ArrayValue([])
  }

  function Nulls(n: nat): (r: seq<Value>)
    ensures |r| == n
  {
    seq(n, _ => NullValue)
  }

  /** The container in which a token's place exists, and that place, made if it was not there. */
  function Prepare(v: Value, t: P.Token): (r: (Value, Place))
    ensures !r.1.Nowhere?
    ensures r.1.Element? ==> r.0.ArrayValue? && r.1.i < |r.0.elements|
    ensures r.1.MemberAt? ==> r.0.ObjectValue? && r.1.k < |r.0.members|
  {
    if v.ArrayValue? && IsDash(t) then
      (ArrayValue(v.elements + [NullValue]), Element(|v.elements|))
    else
      var c := Retyped(v, t);
      if c.ArrayValue? then
        var more := if t.index < |c.elements| then 0 else t.index + 1 - |c.elements|;
        (ArrayValue(c.elements + Nulls(more)), Element(t.index))
      else
        var k := FindMember(c.members, NameOf(t));
        if k == |c.members| then (ObjectValue(c.members + [Member(NameOf(t), NullValue)]), MemberAt(k))
        else (c, MemberAt(k))
  }

  /** Whether Create has to make a token's place, by appending to the array or the object it prepared. */
  predicate Made(v: Value, t: P.Token) {
    (v.ArrayValue? && IsDash(t))
    || (var c := Retyped(v, t);
        if c.ArrayValue? then t.index >= |c.elements| else FindMember(c.members, NameOf(t)) == |c.members|)
  }

  /** Set: the place is created, with all that leads to it, and the value put there. */
  function Put(v: Value, ts: seq<P.Token>, x: Value): Value
    decreases |ts|
  {
    if ts == [] then x
    else
      var c := Prepare(v, ts[0]);
      Replace(c.0, c.1, Put(Child(c.0, c.1), ts[1..], x))
  }

  /** What a token list finds where it is about to append: a "-" at an array. */
  predicate MeetsDash(v: Value, ts: seq<P.Token>)
    decreases |ts|
  {
    ts != []
    && ((v.ArrayValue? && IsDash(ts[0]))
        || (var c := Prepare(v, ts[0]); MeetsDash(Child(c.0, c.1), ts[1..])))
  }

  lemma {:induction false} FoundAt(members: seq<Member>, name: Text, k: nat)
    requires k < |members| && members[k].name == name && forall j | 0 <= j < k :: members[j].name != name
    ensures FindMember(members, name) == k
  {
  }

  lemma {:induction false} DashHasNoIndex(t: P.Token)
    requires IsDash(t) && t.index == P.IndexOf(t.name)
    ensures !HasIndex(t)
  {
    assert P.Cut(t.name)[0] == t.name[0] == MINUS;
    assert !P.AllDigits(t.name);
  }

  /** A place that was made is the place that is found, whatever is put there. */
  lemma {:induction false} PreparedIsFound(v: Value, t: P.Token, x: Value)
    requires !(v.ArrayValue? && IsDash(t))
    ensures
      var c := Prepare(v, t);
      Lookup(Replace(c.0, c.1, x), t) == c.1 && Child(Replace(c.0, c.1, x), c.1) == x
  {
    var c := Prepare(v, t);
    var r := Replace(c.0, c.1, x);
    if c.1.MemberAt? {
      FoundAt(r.members, NameOf(t), c.1.k);
    }
  }

  /**
   * Put then get: after Set, the pointer resolves to the value set, exactly when no "-" token meets
   * an array on its way.
   */
  lemma {:induction false} PutGet(v: Value, ts: seq<P.Token>, x: Value)
    requires Parsed(ts)
    ensures Get(Put(v, ts, x), ts) == Some(x) <==> !MeetsDash(v, ts)
    decreases |ts|
  {
    hide P.IndexOf, P.Cut, Prepare, Lookup;
    if ts != [] {
      var t, rest := ts[0], ts[1..];
      var c := Prepare(v, t);
      var put := Put(Child(c.0, c.1), rest, x);
      if v.ArrayValue? && IsDash(t) {
        DashHasNoIndex(t);
        DashStuck(v, t, put);
      } else {
        PutGet(Child(c.0, c.1), rest, x);
        PreparedIsFound(v, t, put);
      }
    }
  }

  /** After a Set through "/-", Get through "/-" finds nothing: the dash means the place behind the new last element. */
  lemma {:induction false} DashNotFound(elements: seq<Value>, x: Value)
    ensures P.Parse([SLASH, MINUS]) == P.Tokens([DASH])
    ensures Put(ArrayValue(elements), [DASH], x) == ArrayValue(elements + [x])
    ensures Get(Put(ArrayValue(elements), [DASH], x), [DASH]) == None
  {
    hide P.IndexOf;
    DashParsed();
    assert [DASH][1..] == [];
    assert Put(NullValue, [], x) == x;
    assert (elements + [NullValue])[|elements| := x] == elements + [x];
  }

  const DASH := P.Token([MINUS], P.INVALID_INDEX)

  lemma {:induction false} DashParsed()
    ensures P.Parse([SLASH, MINUS]) == P.Tokens([DASH])
  {
    var s := [SLASH, MINUS];
    assert P.ParseName(s, false, 2) == P.Name([], 2);
    assert P.TakeUnit(s, false, 1) == P.Piece([MINUS], 2);
    assert [MINUS] + [] == [MINUS];
    assert P.ParseName(s, false, 1) == P.Name([MINUS], 2);
    DashHasNoIndex(P.Token([MINUS], P.IndexOf([MINUS])));
    assert P.ParseTokens(s, false, 2) == P.Tokens([]);
    assert [DASH] + [] == [DASH];
  }

  lemma {:induction false} DashStuck(v: Value, t: P.Token, x: Value)
    requires v.ArrayValue? && IsDash(t) && !HasIndex(t)
    ensures
      var c := Prepare(v, t);
      Lookup(Replace(c.0, c.1, x), t) == Nowhere
  {
  }

  /** A place that is found needs no making. */
  lemma {:induction false} FoundIsPrepared(v: Value, t: P.Token)
    requires t.index == P.IndexOf(t.name) && !Lookup(v, t).Nowhere?
    ensures Prepare(v, t) == (v, Lookup(v, t)) && !(v.ArrayValue? && IsDash(t))
  {
    hide P.IndexOf, P.Cut;
    if IsDash(t) {
      DashHasNoIndex(t);
    }
    if v.ArrayValue? {
      assert v.elements + Nulls(0) == v.elements;
    }
  }

  lemma {:induction false} ReplaceSame(v: Value, p: Place)
    requires p.Element? ==> v.ArrayValue? && p.i < |v.elements|
    requires p.MemberAt? ==> v.ObjectValue? && p.k < |v.members|
    requires !p.Nowhere?
    ensures Replace(v, p, Child(v, p)) == v
  {
    if p.Element? {
      assert v.elements[p.i := v.elements[p.i]] == v.elements;
    } else {
      assert v.members[p.k := Member(v.members[p.k].name, v.members[p.k].value)] == v.members;
    }
  }

  /** A place has to be made exactly when it is not found. */
  lemma {:induction false} MadeIffNowhere(v: Value, t: P.Token)
    requires t.index == P.IndexOf(t.name)
    ensures Made(v, t) <==> Lookup(v, t).Nowhere?
  {
    hide P.IndexOf;
    if IsDash(t) {
      DashHasNoIndex(t);
    }
  }

  /** Get then put: setting what a pointer resolves to changes nothing. */
  lemma {:induction false} GetPut(v: Value, ts: seq<P.Token>)
    requires Parsed(ts) && Get(v, ts).Some?
    ensures Put(v, ts, Get(v, ts).value) == v
    decreases |ts|
  {
    hide P.IndexOf, Prepare, Lookup, Replace;
    if ts != [] {
      FoundIsPrepared(v, ts[0]);
      var p := Lookup(v, ts[0]);
      GetPut(Child(v, p), ts[1..]);
      ReplaceSame(v, p);
    }
  }

  lemma {:induction false} PrepareAgain(v: Value, t: P.Token, x: Value)
    requires t.index == P.IndexOf(t.name) && !(v.ArrayValue? && IsDash(t))
    ensures
      var c := Prepare(v, t);
      Prepare(Replace(c.0, c.1, x), t) == (Replace(c.0, c.1, x), c.1)
  {
    hide Prepare, Replace, Lookup, P.IndexOf;
    var c := Prepare(v, t);
    PreparedIsFound(v, t, x);
    FoundIsPrepared(Replace(c.0, c.1, x), t);
  }

  lemma {:induction false} ReplaceTwice(v: Value, p: Place, x: Value, y: Value)
    requires p.Element? ==> v.ArrayValue? && p.i < |v.elements|
    requires p.MemberAt? ==> v.ObjectValue? && p.k < |v.members|
    requires !p.Nowhere?
    ensures Replace(Replace(v, p, x), p, y) == Replace(v, p, y)
  {
  }

  lemma {:induction false} NothingPut(v: Value, x: Value)
    ensures Put(v, [], x) == x
  {
  }

  lemma {:induction false} PutUnfold(v: Value, ts: seq<P.Token>, x: Value)
    requires ts != []
    ensures
      var c := Prepare(v, ts[0]);
      Put(v, ts, x) == Replace(c.0, c.1, Put(Child(c.0, c.1), ts[1..], x))
  {
    hide Prepare, Replace, Child;
  }

  lemma {:induction false} ReplaceApart(v: Value, p: Place, x: Value, y: Value)
    requires p.Element? ==> v.ArrayValue? && p.i < |v.elements|
    requires p.MemberAt? ==> v.ObjectValue? && p.k < |v.members|
    requires !p.Nowhere?
    ensures Replace(v, p, x) == Replace(v, p, y) ==> x == y
  {
    if p.Element? {
      assert v.elements[p.i := x][p.i] == x && v.elements[p.i := y][p.i] == y;
    } else {
      var name := v.members[p.k].name;
      assert v.members[p.k := Member(name, x)][p.k] == Member(name, x);
      assert v.members[p.k := Member(name, y)][p.k] == Member(name, y);
    }
  }

  /** A dash appends every time. */
  lemma {:induction false} DashTwice(v: Value, t: P.Token, x: Value, y: Value, z: Value)
    requires v.ArrayValue? && IsDash(t)
    ensures
      var c := Prepare(v, t);
      var once := Replace(c.0, c.1, x);
      var d := Prepare(once, t);
      Replace(d.0, d.1, y) != Replace(c.0, c.1, z)
  {
    var c := Prepare(v, t);
    var once := Replace(c.0, c.1, x);
    var d := Prepare(once, t);
    assert |Replace(d.0, d.1, y).elements| == |Replace(c.0, c.1, z).elements| + 1;
  }

  /** Put twice: the second Set wins exactly when no "-" token meets an array; else both values are appended. */
  lemma {:induction false} PutPut(v: Value, ts: seq<P.Token>, x: Value, y: Value)
    requires Parsed(ts)
    ensures Put(Put(v, ts, x), ts, y) == Put(v, ts, y) <==> !MeetsDash(v, ts)
    decreases |ts|
  {
    hide P.IndexOf, Prepare, Lookup, Replace, Put, Child, IsDash;
    if ts == [] {
      NothingPut(v, x);
      NothingPut(v, y);
      NothingPut(x, y);
    } else {
      var t, rest := ts[0], ts[1..];
      var c := Prepare(v, t);
      var put := Put(Child(c.0, c.1), rest, x);
      PutUnfold(v, ts, x);
      PutUnfold(v, ts, y);
      PutUnfold(Put(v, ts, x), ts, y);
      var other := Put(Child(c.0, c.1), rest, y);
      if v.ArrayValue? && IsDash(t) {
        var d := Prepare(Put(v, ts, x), t);
        DashTwice(v, t, put, Put(Child(d.0, d.1), rest, y), other);
      } else {
        PutPut(Child(c.0, c.1), rest, x, y);
        PrepareAgain(v, t, put);
        PreparedIsFound(v, t, put);
        ReplaceTwice(c.0, c.1, put, Put(put, rest, y));
        ReplaceApart(c.0, c.1, Put(put, rest, y), other);
      }
    }
  }

  // ----- what Set leaves alone

  /** The two pointers part ways somewhere inside `v`. */
  predicate PartWays(v: Value, ts: seq<P.Token>, us: seq<P.Token>)
    decreases |us|
  {
    ts != [] && us != [] && !Lookup(v, us[0]).Nowhere?
    && (Lookup(v, ts[0]) != Lookup(v, us[0])
        || PartWays(Child(v, Lookup(v, us[0])), ts[1..], us[1..]))
  }

  /** Before the two part, the first makes an object of an array that the second goes through. */
  predicate LosesArray(v: Value, ts: seq<P.Token>, us: seq<P.Token>)
    requires PartWays(v, ts, us)
    decreases |us|
  {
    (v.ArrayValue? && !HasIndex(ts[0]) && !IsDash(ts[0]))
    || (Lookup(v, ts[0]) == Lookup(v, us[0])
        && LosesArray(Child(v, Lookup(v, us[0])), ts[1..], us[1..]))
  }

  /** Looking for another token in a container that was prepared and written to. */
  lemma {:induction false} OtherPlace(v: Value, t: P.Token, u: P.Token, x: Value)
    requires t.index == P.IndexOf(t.name) && u.index == P.IndexOf(u.name)
    requires |t.name| < SIZE_TYPE_LIMIT && |u.name| < SIZE_TYPE_LIMIT
    requires !Lookup(v, u).Nowhere? && Lookup(v, t) != Lookup(v, u)
    ensures
      var c := Prepare(v, t);
      var r := Replace(c.0, c.1, x);
      if v.ArrayValue? && !HasIndex(t) && !IsDash(t) then Lookup(r, u) == Nowhere
      else Lookup(r, u) == Lookup(v, u) && Child(r, Lookup(v, u)) == Child(v, Lookup(v, u))
  {
    hide P.IndexOf;
    var c := Prepare(v, t);
    var r := Replace(c.0, c.1, x);
    assert NameOf(t) == t.name && NameOf(u) == u.name;
    if v.ObjectValue? {
      FoundAt(r.members, NameOf(u), Lookup(v, u).k);
    }
  }

  /**
   * The frame of Set: a location that resolved before and is off the path still resolves to the same
   * value, exactly when no array that leads to both was turned into an object. (A name of 2^32 bytes
   * and more could be no index and still count as the same member as one that is.)
   */
  lemma {:induction false} PutFrame(v: Value, ts: seq<P.Token>, us: seq<P.Token>, x: Value)
    requires Parsed(ts) && Parsed(us) && P.ShortNames(ts) && P.ShortNames(us)
    requires PartWays(v, ts, us) && Get(v, us).Some?
    ensures Get(Put(v, ts, x), us) == Get(v, us) <==> !LosesArray(v, ts, us)
    ensures LosesArray(v, ts, us) ==> Get(Put(v, ts, x), us) == None
    decreases |us|
  {
    hide P.IndexOf, Prepare, Lookup, Replace;
    var t, u := ts[0], us[0];
    var c := Prepare(v, t);
    var put := Put(Child(c.0, c.1), ts[1..], x);
    if Lookup(v, t) != Lookup(v, u) {
      OtherPlace(v, t, u, put);
    } else {
      FoundIsPrepared(v, t);
      SamePlace(v, t, u, put);
      PutFrame(Child(v, Lookup(v, u)), ts[1..], us[1..], x);
    }
  }

  const LETTER_A := P.Token([97], P.INVALID_INDEX)
  const FIRST := P.Token([ZERO], 0)

  lemma {:induction false} LetterParsed(c: byte, index: nat)
    requires (c == 97 && index == P.INVALID_INDEX) || (c == ZERO && index == 0)
    ensures P.Parse([SLASH, c]) == P.Tokens([P.Token([c], index)])
  {
    var s := [SLASH, c];
    assert P.ParseName(s, false, 2) == P.Name([], 2);
    assert P.TakeUnit(s, false, 1) == P.Piece([c], 2);
    assert [c] + [] == [c];
    assert P.ParseName(s, false, 1) == P.Name([c], 2);
    assert P.Cut([c]) == [c];
    if c == 97 {
      assert !IsDigit([c][0]);
    } else {
      assert P.IndexFrom([c], 1, 0) == 0;
    }
    assert P.ParseTokens(s, false, 2) == P.Tokens([]);
    assert [P.Token([c], index)] + [] == [P.Token([c], index)];
  }

  /** Set through "/a" makes an object of an array, and "/0", which resolved before, does not any more. */
  lemma {:induction false} ArrayLost(first: Value, x: Value)
    ensures P.Parse([SLASH, 97]) == P.Tokens([LETTER_A]) && P.Parse([SLASH, ZERO]) == P.Tokens([FIRST])
    ensures Get(ArrayValue([first]), [FIRST]) == Some(first)
    ensures Put(ArrayValue([first]), [LETTER_A], x) == ObjectValue([Member([97], x)])
    ensures Get(Put(ArrayValue([first]), [LETTER_A], x), [FIRST]) == None
  {
    LetterParsed(97, P.INVALID_INDEX);
    LetterParsed(ZERO, 0);
    var v := ArrayValue([first]);
    assert [FIRST][1..] == [] && [LETTER_A][1..] == [];
    assert Put(NullValue, [], x) == x;
    assert P.Cut([97]) == [97] && P.Cut([ZERO]) == [ZERO];
    var c := Prepare(v, LETTER_A);
    assert [] + [Member([97], NullValue)] == [Member([97], NullValue)];
    assert c == (ObjectValue([Member([97], NullValue)]), MemberAt(0));
    assert FindMember([Member([97], x)], [ZERO]) == 1 by {
      assert [Member([97], x)][1..] == [];
    }
  }

  /** The elements a place has before a token is applied to it. */
  function ElementsOf(v: Value): seq<Value> {
    if v.ArrayValue? then v.elements else []
  }

  /**
   * What Set does to an array on its path, at any depth: the element of the index is set inside, the
   * other elements keep their values, and if the array was too short it is extended with nulls up to
   * the index and no further. A place that held no container becomes such an array.
   */
  lemma {:induction false} PutExtends(v: Value, us: seq<P.Token>, t: P.Token, rest: seq<P.Token>, x: Value)
    requires Parsed(us) && t.index == P.IndexOf(t.name) && HasIndex(t)
    requires Get(v, us).Some? && !Get(v, us).value.ObjectValue?
    ensures
      var before := ElementsOf(Get(v, us).value);
      var w := Get(Put(v, us + ([t] + rest), x), us);
      && w.Some? && w.value.ArrayValue?
      && var after := w.value.elements;
      && |after| == (if t.index < |before| then |before| else t.index + 1)
      && after[t.index] == Put(if t.index < |before| then before[t.index] else NullValue, rest, x)
      && (forall k | 0 <= k < |before| && k != t.index :: after[k] == before[k])
      && (forall k | |before| <= k < t.index :: after[k] == NullValue)
  {
    hide P.IndexOf, Put, Prepare, Replace, Lookup;
    var u := Get(v, us).value;
    PutInside(v, us, [t] + rest, x);
    var y := Put(u, [t] + rest, x);
    FoundNoDash(v, us);
    PutGet(v, us, y);
    PutUnfold(u, [t] + rest, x);
    assert ([t] + rest)[1..] == rest;
    IndexPlaced(u, t, rest, x);
  }

  lemma {:induction false} IndexPlaced(u: Value, t: P.Token, rest: seq<P.Token>, x: Value)
    requires t.index == P.IndexOf(t.name) && HasIndex(t) && !u.ObjectValue?
    ensures
      var before := ElementsOf(u);
      var c := Prepare(u, t);
      var w := Replace(c.0, c.1, Put(Child(c.0, c.1), rest, x));
      && w.ArrayValue?
      && var after := w.elements;
      && |after| == (if t.index < |before| then |before| else t.index + 1)
      && after[t.index] == Put(if t.index < |before| then before[t.index] else NullValue, rest, x)
      && (forall k | 0 <= k < |before| && k != t.index :: after[k] == before[k])
      && (forall k | |before| <= k < t.index :: after[k] == NullValue)
  {
    hide P.IndexOf, Put;
    if IsDash(t) {
      DashHasNoIndex(t);
    }
  }

  /** A path that resolves has no place for a dash. */
  lemma {:induction false} FoundNoDash(v: Value, ts: seq<P.Token>)
    requires Parsed(ts) && Get(v, ts).Some?
    ensures !MeetsDash(v, ts)
    decreases |ts|
  {
    hide P.IndexOf, Prepare, Lookup;
    if ts != [] {
      FoundIsPrepared(v, ts[0]);
      FoundNoDash(Child(v, Lookup(v, ts[0])), ts[1..]);
    }
  }

  lemma {:induction false} SamePlace(v: Value, t: P.Token, u: P.Token, x: Value)
    requires t.index == P.IndexOf(t.name)
    requires !Lookup(v, u).Nowhere? && Lookup(v, t) == Lookup(v, u)
    ensures Lookup(Replace(v, Lookup(v, t), x), u) == Lookup(v, u)
    ensures Child(Replace(v, Lookup(v, t), x), Lookup(v, u)) == x
    ensures v.ArrayValue? ==> HasIndex(t)
  {
    hide P.IndexOf;
    if v.ObjectValue? {
      FoundAt(Replace(v, Lookup(v, t), x).members, NameOf(u), Lookup(v, u).k);
    }
  }

  /** On the path itself the change goes on below: Set through a longer pointer is Set inside. */
  lemma {:induction false} PutInside(v: Value, us: seq<P.Token>, rest: seq<P.Token>, x: Value)
    requires Parsed(us) && Get(v, us).Some?
    ensures Put(v, us + rest, x) == Put(v, us, Put(Get(v, us).value, rest, x))
    decreases |us|
  {
    hide P.IndexOf, Prepare, Lookup, Replace;
    if us == [] {
      assert us + rest == rest;
    } else {
      FoundIsPrepared(v, us[0]);
      assert (us + rest)[0] == us[0] && (us + rest)[1..] == us[1..] + rest;
      PutInside(Child(v, Lookup(v, us[0])), us[1..], rest, x);
    }
  }

  // ----- the loops

  /** A chain of places from a root. */
  predicate Leads(v: Value, path: seq<Place>)
    decreases |path|
  {
    path != [] ==>
      && !path[0].Nowhere?
      && (path[0].Element? ==> v.ArrayValue? && path[0].i < |v.elements|)
      && (path[0].MemberAt? ==> v.ObjectValue? && path[0].k < |v.members|)
      && Leads(Child(v, path[0]), path[1..])
  }

  function At(v: Value, path: seq<Place>): Value
    requires Leads(v, path)
    decreases |path|
  {
    if path == [] then v else At(Child(v, path[0]), path[1..])
  }

  /** The root after a write to the value at the end of a path. */
  function Write(v: Value, path: seq<Place>, x: Value): Value
    requires Leads(v, path)
    decreases |path|
  {
    if path == [] then x else Replace(v, path[0], Write(Child(v, path[0]), path[1..], x))
  }

  /** What the loop of Create does to the root in one round, and what a later write then does. */
  lemma {:induction false} Descend(v: Value, path: seq<Place>, c: Value, p: Place, y: Value)
    requires Leads(v, path) && !p.Nowhere?
    requires p.Element? ==> c.ArrayValue? && p.i < |c.elements|
    requires p.MemberAt? ==> c.ObjectValue? && p.k < |c.members|
    ensures
      var w := Write(v, path, c);
      && Leads(w, path + [p]) && At(w, path + [p]) == Child(c, p)
      && Write(w, path + [p], y) == Write(v, path, Replace(c, p, y))
    decreases |path|
  {
    var w := Write(v, path, c);
    if path == [] {
      assert path + [p] == [p];
      assert Leads(Child(c, p), []);
    } else {
      var q, rest := path[0], path[1..];
      Descend(Child(v, q), rest, c, p, y);
      assert (path + [p])[0] == q && (path + [p])[1..] == rest + [p];
      assert Child(w, q) == Write(Child(v, q), rest, c);
    }
  }

  lemma {:induction false} WriteBack(v: Value, path: seq<Place>)
    requires Leads(v, path)
    ensures Write(v, path, At(v, path)) == v
    decreases |path|
  {
    if path != [] {
      WriteBack(Child(v, path[0]), path[1..]);
      ReplaceSame(v, path[0]);
    }
  }

  lemma {:induction false} GetMore(v: Value, ts: seq<P.Token>, k: nat)
    requires k < |ts|
    ensures
      var g := Get(v, ts[..k]);
      Get(v, ts[..k + 1]) ==
        if g.None? || Lookup(g.value, ts[k]).Nowhere? then None
        else Some(Child(g.value, Lookup(g.value, ts[k])))
    decreases k
  {
    hide Lookup, Child;
    if k == 0 {
      assert ts[..1][1..] == [] && ts[..0] == [];
    } else {
      assert ts[..k + 1][1..] == ts[1..][..k] && ts[..k][1..] == ts[1..][..k - 1];
      if !Lookup(v, ts[0]).Nowhere? {
        GetMore(Child(v, Lookup(v, ts[0])), ts[1..], k - 1);
      }
    }
  }

  lemma {:induction false} GetPrefix(v: Value, ts: seq<P.Token>, k: nat)
    requires k <= |ts| && Get(v, ts[..k]).None?
    ensures Get(v, ts).None?
    decreases |ts| - k
  {
    if k == |ts| {
      assert ts[..k] == ts;
    } else {
      GetMore(v, ts, k);
      GetPrefix(v, ts, k + 1);
    }
  }

  /** Get: the value, or the number of the first token that does not resolve. */
  method Resolve(root: Value, ts: seq<P.Token>) returns (r: Option<Value>, unresolved: nat)
    ensures r == Get(root, ts)
    ensures r.None? ==>
      unresolved < |ts| && Get(root, ts[..unresolved]).Some?
      && Lookup(Get(root, ts[..unresolved]).value, ts[unresolved]).Nowhere?
  {
    hide Lookup, Child;
    var v := root;
    var k := 0;
    unresolved := |ts|;
    while k < |ts|
      invariant k <= |ts| && Get(root, ts[..k]) == Some(v)
    {
      GetMore(root, ts, k);
      var p := Lookup(v, ts[k]);
      if p.Nowhere? {
        GetPrefix(root, ts, k + 1);
        return None, k;
      }
      v := Child(v, p);
      k := k + 1;
    }
    assert ts[..k] == ts;
    r := Some(v);
  }

  /** The tokens left, as the invariant of Create's loop sees them. */
  ghost predicate Continues(root: Value, ts: seq<P.Token>, v: Value, path: seq<Place>, k: nat)
    requires k <= |ts|
  {
    Leads(v, path) && forall x :: Put(root, ts, x) == Write(v, path, Put(At(v, path), ts[k..], x))
  }

  lemma {:induction false} ContinuesOn(root: Value, ts: seq<P.Token>, v: Value, path: seq<Place>, k: nat)
    requires k < |ts| && Continues(root, ts, v, path, k)
    ensures
      var c := Prepare(At(v, path), ts[k]);
      Continues(root, ts, Write(v, path, c.0), path + [c.1], k + 1)
  {
    hide Prepare, Put, Write, At, Leads, Child;
    var c := Prepare(At(v, path), ts[k]);
    var w := Write(v, path, c.0);
    Descend(v, path, c.0, c.1, NullValue);
    assert ts[k..][1..] == ts[k + 1..];
    forall x ensures Put(root, ts, x) == Write(w, path + [c.1], Put(At(w, path + [c.1]), ts[k + 1..], x)) {
      var y := Put(Child(c.0, c.1), ts[k + 1..], x);
      PutUnfold(At(v, path), ts[k..], x);
      Descend(v, path, c.0, c.1, y);
    }
  }

  /**
   * Create: makes the place of the pointer in the root, token by token, and tells whether it was
   * there. A write to that place is then the whole of Set.
   */
  method Create(root: Value, ts: seq<P.Token>) returns (v: Value, path: seq<Place>, exist: bool)
    requires Parsed(ts)
    ensures Leads(v, path) && forall x :: Write(v, path, x) == Put(root, ts, x)
    ensures exist == Get(root, ts).Some?
    ensures exist ==> v == root
  {
    hide Prepare, Put, Write, At, Leads, Lookup, Child, Get, P.IndexOf, Continues, Made;
    v, path, exist := root, [], true;
    var k := 0;
    ContinuesFirst(root, ts);
    while k < |ts|
      invariant k <= |ts| && Continues(root, ts, v, path, k)
      invariant exist == Get(root, ts[..k]).Some?
      invariant exist ==> v == root && Leads(v, path) && Get(root, ts[..k]) == Some(At(v, path))
    {
      ContinuesLeads(root, ts, v, path, k);
      GetMore(root, ts, k);
      ContinuesOn(root, ts, v, path, k);
      var here := At(v, path);
      var c := Prepare(here, ts[k]);
      WriteBack(v, path);
      Descend(v, path, c.0, c.1, NullValue);
      MadeIffNowhere(here, ts[k]);
      if Made(here, ts[k]) {
        exist := false;
      } else {
        FoundIsPrepared(here, ts[k]);
      }
      v, path, k := Write(v, path, c.0), path + [c.1], k + 1;
    }
    assert ts[..k] == ts;
    ContinuesLast(root, ts, v, path);
  }

  lemma {:induction false} ContinuesFirst(root: Value, ts: seq<P.Token>)
    ensures Continues(root, ts, root, [], 0)
    ensures Leads(root, []) && At(root, []) == root && Get(root, ts[..0]) == Some(root)
  {
    assert ts[0..] == ts;
  }

  lemma {:induction false} ContinuesLeads(root: Value, ts: seq<P.Token>, v: Value, path: seq<Place>, k: nat)
    requires k <= |ts| && Continues(root, ts, v, path, k)
    ensures Leads(v, path)
  {
  }

  lemma {:induction false} ContinuesLast(root: Value, ts: seq<P.Token>, v: Value, path: seq<Place>)
    requires Continues(root, ts, v, path, |ts|)
    ensures Leads(v, path) && forall x :: Write(v, path, x) == Put(root, ts, x)
  {
    assert ts[|ts|..] == [];
  }

  /** Set. */
  method Set(root: Value, ts: seq<P.Token>, x: Value) returns (v: Value)
    requires Parsed(ts)
    ensures v == Put(root, ts, x)
  {
    hide Put, Write, Get;
    var w, path, exist := Create(root, ts);
    v := Write(w, path, x);
  }
}

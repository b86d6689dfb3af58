/**
 What patterns mean, in byte values: 42 is the star, 63 any byte, 91 and 93 enclose a class, 94 or 33
 after 91 negates it, 45 between two bytes of a class makes a range, and 92 takes the next byte as it is.
 A pattern is printed from a list of atoms, and its language is the one the atoms describe.
 */
module GlobLaws {
  import opened ByteStrings
  import opened Globs

  /** A member of a class: one byte, or a range of bytes. */
  datatype Member = One(b: byte) | From(lo: byte, hi: byte) {
    function Print(): Bytes {
      match this
      case One(b) => [b]
      case From(lo, hi) => [lo, 45, hi]
    }

    predicate Has(c: byte) {
      match this
      case One(b) => c == b
      case From(lo, hi) => lo <= c <= hi
    }

    /** It is not read as the end of the class or as the hyphen of a range. */
    predicate Proper() {
      match this
      case One(b) => b != 93 && b != 45
      case From(lo, hi) => lo != 93 && lo != 45 && hi != 93
    }
  }

  function PrintMembers(members: seq<Member>): Bytes {
    if members == [] then [] else members[0].Print() + PrintMembers(members[1..])
  }

  predicate AnyHas(members: seq<Member>, c: byte) {
    exists i :: 0 <= i < |members| && members[i].Has(c)
  }

  datatype Atom =
    | Many                                         // any bytes
    | Single                                       // any one byte
    | Plain(b: byte)
    | Escaped(b: byte)
    | Among(members: seq<Member>)
    | Except(mark: byte, members: seq<Member>)
  {
    function Print(): Bytes {
      match this
      case Many => [42]
      case Single => [63]
      case Plain(b) => [b]
      case Escaped(b) => [92, b]
      case Among(members) => [91] + PrintMembers(members) + [93]
      case Except(mark, members) => [91, mark] + PrintMembers(members) + [93]
    }

    /** Whether a byte is one of those that this atom stands for. */
    predicate Has(c: byte) {
      match this
      case Many => false
      case Single => true
      case Plain(b) => c == b
      case Escaped(b) => c == b
      case Among(members) => AnyHas(members, c)
      case Except(_, members) => !AnyHas(members, c)
    }

    predicate Proper() {
      match this
      case Plain(b) => b != 42 && b != 63 && b != 91 && b != 92
      case Among(members) =>
        && (forall i :: 0 <= i < |members| ==> members[i].Proper())
        && (members != [] ==> members[0].Print()[0] != 94 && members[0].Print()[0] != 33)
      case Except(mark, members) =>
        (mark == 94 || mark == 33) && forall i :: 0 <= i < |members| ==> members[i].Proper()
      case _ => true
    }
  }

  predicate AllProper(atoms: seq<Atom>) {
    forall i :: 0 <= i < |atoms| ==> atoms[i].Proper()
  }

  function PrintAtoms(atoms: seq<Atom>): Bytes {
    if atoms == [] then [] else atoms[0].Print() + PrintAtoms(atoms[1..])
  }

  /** The texts that a list of atoms describes: the star any stretch, every other atom one byte. */
  ghost predicate Describes(atoms: seq<Atom>, text: Bytes) {
    if atoms == [] then text == []
    else if atoms[0].Many? then exists k :: 0 <= k <= |text| && Describes(atoms[1..], text[k..])
    else text != [] && atoms[0].Has(text[0]) && Describes(atoms[1..], text[1..])
  }

  // ----- the tokens of a printed pattern -----

  lemma {:induction false} BodyShift(front: Bytes, back: Bytes, p: nat)
    requires p <= |back|
    ensures var b := ClassBody(back, p);
            ClassBody(front + back, |front| + p) == (b.0, b.1, |front| + b.2)
    decreases |back| - p
  {
    var all := front + back;
    assert forall i :: 0 <= i < |back| ==> all[|front| + i] == back[i];
    if p < |back| && back[p] != CLOSE {
      if p + 2 < |back| && back[p + 1] == MINUS && back[p + 2] != CLOSE {
        BodyShift(front, back, p + 3);
      } else {
        BodyShift(front, back, p + 1);
      }
    }
  }

  lemma {:induction false} TokensShift(front: Bytes, back: Bytes, p: nat)
    requires p <= |back|
    ensures Tokens(front + back, |front| + p) == Tokens(back, p)
    decreases |back| - p
  {
    hide TokenAt;
    if p < |back| {
      TokenShift(front, back, p);
      TokensShift(front, back, TokenAt(back, p).1);
    }
  }

  lemma TokenShift(front: Bytes, back: Bytes, p: nat)
    requires p < |back|
    ensures TokenAt(front + back, |front| + p) == (TokenAt(back, p).0, |front| + TokenAt(back, p).1)
  {
    hide ClassBody;
    var all := front + back;
    assert forall i :: 0 <= i < |back| ==> all[|front| + i] == back[i];
    BodyShift(front, back, p + 1);
    if p + 2 <= |back| {
      BodyShift(front, back, p + 2);
    }
  }

  function SpansOf(members: seq<Member>): seq<Span> {
    if members == [] then []
    else [if members[0].One? then Span(members[0].b, members[0].b) else Span(members[0].lo, members[0].hi)]
         + SpansOf(members[1..])
  }

  lemma {:induction false} SpansHave(members: seq<Member>, c: byte)
    ensures InSpans(SpansOf(members), c) <==> AnyHas(members, c)
  {
    if members != [] {
      SpansHave(members[1..], c);
      var spans, tail := SpansOf(members), SpansOf(members[1..]);
      assert spans[1..] == tail;
      if AnyHas(members, c) {
        var i :| 0 <= i < |members| && members[i].Has(c);
        if i > 0 {
          assert members[1..][i - 1].Has(c);
          var j :| 0 <= j < |tail| && tail[j].lo <= c <= tail[j].hi;
          assert spans[j + 1] == tail[j];
        } else {
          assert spans[0].lo <= c <= spans[0].hi;
        }
      }
      if InSpans(spans, c) {
        var j :| 0 <= j < |spans| && spans[j].lo <= c <= spans[j].hi;
        if j > 0 {
          assert tail[j - 1] == spans[j];
          var i :| 0 <= i < |members[1..]| && members[1..][i].Has(c);
          assert members[i + 1].Has(c);
        } else {
          assert members[0].Has(c);
        }
      }
    }
  }

  lemma {:induction false} BodyOf(members: seq<Member>, rest: Bytes)
    requires forall i :: 0 <= i < |members| ==> members[i].Proper()
    ensures ClassBody(PrintMembers(members) + [93] + rest, 0) == (SpansOf(members), true, |PrintMembers(members)| + 1)
  {
    var pat := PrintMembers(members) + [93] + rest;
    if members != [] {
      var back := PrintMembers(members[1..]) + [93] + rest;
      BodyOf(members[1..], rest);
      assert pat == members[0].Print() + back;
      BodyShift(members[0].Print(), back, 0);
      NextIsNoHyphen(members[1..], rest);
    }
  }

  lemma NextIsNoHyphen(members: seq<Member>, rest: Bytes)
    requires forall i :: 0 <= i < |members| ==> members[i].Proper()
    ensures var pat := PrintMembers(members) + [93] + rest;
            pat != [] && pat[0] != 45
  {
    if members != [] {
      assert members[0].Proper();
    }
  }

  function TokenOf(atom: Atom): Token {
    match atom
    case Many => Star
    case Single => Any
    case Plain(b) => Literal(b)
    case Escaped(b) => Literal(b)
    case Among(members) => Class(false, SpansOf(members))
    case Except(_, members) => Class(true, SpansOf(members))
  }

  lemma ClassToken(front: Bytes, members: seq<Member>, rest: Bytes)
    requires forall i :: 0 <= i < |members| ==> members[i].Proper()
    ensures ClassBody(front + (PrintMembers(members) + [93] + rest), |front|)
            == (SpansOf(members), true, |front| + |PrintMembers(members)| + 1)
  {
    hide ClassBody, PrintMembers, SpansOf;
    BodyOf(members, rest);
    BodyShift(front, PrintMembers(members) + [93] + rest, 0);
  }

  lemma AmongToken(members: seq<Member>, rest: Bytes)
    requires Among(members).Proper()
    ensures TokenAt(Among(members).Print() + rest, 0)
            == (Class(false, SpansOf(members)), |Among(members).Print()|)
  {
    hide ClassBody, SpansOf, PrintMembers;
    var body := PrintMembers(members) + [93] + rest;
    var pat := Among(members).Print() + rest;
    assert pat == [91] + body;
    ClassToken([91], members, rest);
    FirstByte(members, rest);
    assert pat[1] == body[0];
  }

  lemma ExceptToken(mark: byte, members: seq<Member>, rest: Bytes)
    requires Except(mark, members).Proper()
    ensures TokenAt(Except(mark, members).Print() + rest, 0)
            == (Class(true, SpansOf(members)), |Except(mark, members).Print()|)
  {
    hide ClassBody, SpansOf, PrintMembers;
    assert Except(mark, members).Print() + rest == [91, mark] + (PrintMembers(members) + [93] + rest);
    ClassToken([91, mark], members, rest);
  }

  /** A printed atom is read as one token, whatever follows it. */
  lemma AtomToken(atom: Atom, rest: Bytes)
    requires atom.Proper()
    ensures atom.Print() != [] && TokenAt(atom.Print() + rest, 0) == (TokenOf(atom), |atom.Print()|)
  {
    hide ClassBody, SpansOf, PrintMembers;
    match atom
    case Among(members) => AmongToken(members, rest);
    case Except(mark, members) => ExceptToken(mark, members, rest);
    case _ =>
  }

  lemma FirstByte(members: seq<Member>, rest: Bytes)
    ensures var body := PrintMembers(members) + [93] + rest;
            body != [] && body[0] == if members == [] then 93 else members[0].Print()[0]
  {
  }

  function TokensOf(atoms: seq<Atom>): seq<Token> {
    if atoms == [] then [] else [TokenOf(atoms[0])] + TokensOf(atoms[1..])
  }

  lemma {:induction false} AtomTokens(atoms: seq<Atom>)
    requires AllProper(atoms)
    ensures Tokens(PrintAtoms(atoms), 0) == TokensOf(atoms)
  {
    hide TokenAt, TokenOf;
    if atoms != [] {
      var first, rest := atoms[0].Print(), PrintAtoms(atoms[1..]);
      AtomToken(atoms[0], rest);
      AtomTokens(atoms[1..]);
      TokensShift(first, rest, 0);
    }
  }

  // ----- the language of a printed pattern -----

  lemma AtomAccepts(atom: Atom, c: byte)
    ensures Accepts(TokenOf(atom), c) <==> atom.Has(c)
  {
    hide AnyHas, InSpans, SpansOf;
    match atom
    case Among(members) => SpansHave(members, c);
    case Except(_, members) => SpansHave(members, c);
    case _ =>
  }

  lemma {:induction false} TokensDescribe(atoms: seq<Atom>, text: Bytes)
    ensures Matches(TokensOf(atoms), text) <==> Describes(atoms, text)
    decreases |atoms|
  {
    hide TokenOf, Accepts;
    if atoms != [] {
      var tokens := TokensOf(atoms);
      assert tokens[1..] == TokensOf(atoms[1..]);
      OnlyManyIsStar(atoms[0]);
      if atoms[0].Many? {
        forall k | 0 <= k <= |text|
          ensures Matches(tokens[1..], text[k..]) <==> Describes(atoms[1..], text[k..])
        {
          TokensDescribe(atoms[1..], text[k..]);
        }
        if Matches(tokens, text) {
          var k := StarChooses(tokens, text);
          assert Describes(atoms[1..], text[k..]);
        }
        if Describes(atoms, text) {
          var k :| 0 <= k <= |text| && Describes(atoms[1..], text[k..]);
          StarSwallows(tokens, text, k);
        }
      } else if text != [] {
        AtomAccepts(atoms[0], text[0]);
        TokensDescribe(atoms[1..], text[1..]);
      }
    }
  }

  lemma OnlyManyIsStar(atom: Atom)
    ensures TokenOf(atom) == Star <==> atom.Many?
  {
  }

  /** The language of a printed pattern is what its atoms describe. */
  lemma PatternMeans(atoms: seq<Atom>, text: Bytes)
    requires AllProper(atoms)
    ensures InLanguage(PrintAtoms(atoms), text) <==> Describes(atoms, text)
  {
    AtomTokens(atoms);
    TokensDescribe(atoms, text);
  }

  lemma NoAtoms(text: Bytes)
    ensures Describes([], text) <==> text == []
  {
  }

  lemma DescribesStep(x: Atom, xs: seq<Atom>, text: Bytes, j: nat)
    requires j <= |text| && Describes(xs, text[j..])
    requires x.Many? || (j == 1 && x.Has(text[0]))
    ensures Describes([x] + xs, text)
  {
    assert ([x] + xs)[1..] == xs;
  }

  /** A text that two lists describe together splits into texts that each describes. */
  lemma {:induction false} DescribedSplits(xs: seq<Atom>, ys: seq<Atom>, text: Bytes) returns (k: nat)
    requires Describes(xs + ys, text)
    ensures k <= |text| && Describes(xs, text[..k]) && Describes(ys, text[k..])
    decreases |xs|
  {
    hide Describes;
    if xs == [] {
      k := 0;
      assert xs + ys == ys && text[0..] == text && text[..0] == [];
      NoAtoms([]);
    } else {
      assert (xs + ys)[1..] == xs[1..] + ys && (xs + ys)[0] == xs[0];
      var j := HeadTakes(xs + ys, text);
      var i := DescribedSplits(xs[1..], ys, text[j..]);
      k := j + i;
      assert text[..k][j..] == text[j..][..i] && text[j..][i..] == text[k..];
      assert !xs[0].Many? ==> text[..k][0] == text[0];
      assert [xs[0]] + xs[1..] == xs;
      DescribesStep(xs[0], xs[1..], text[..k], j);
    }
  }

  /** Two texts that two lists describe make a text that both together describe. */
  lemma {:induction false} DescribedJoins(xs: seq<Atom>, ys: seq<Atom>, text: Bytes, k: nat)
    requires k <= |text| && Describes(xs, text[..k]) && Describes(ys, text[k..])
    ensures Describes(xs + ys, text)
    decreases |xs|
  {
    hide Describes;
    if xs == [] {
      NoAtoms(text[..k]);
      assert xs + ys == ys && text[0..] == text;
    } else {
      var j := HeadTakes(xs, text[..k]);
      assert text[j..][..k - j] == text[..k][j..] && text[j..][k - j..] == text[k..];
      DescribedJoins(xs[1..], ys, text[j..], k - j);
      assert [xs[0]] + (xs[1..] + ys) == xs + ys;
      DescribesStep(xs[0], xs[1..] + ys, text, j);
    }
  }

  lemma DescribesConcat(xs: seq<Atom>, ys: seq<Atom>, text: Bytes)
    ensures Describes(xs + ys, text)
            <==> exists k :: 0 <= k <= |text| && Describes(xs, text[..k]) && Describes(ys, text[k..])
  {
    hide Describes;
    if Describes(xs + ys, text) {
      var k := DescribedSplits(xs, ys, text);
      assert Describes(xs, text[..k]) && Describes(ys, text[k..]);
    }
    if k :| 0 <= k <= |text| && Describes(xs, text[..k]) && Describes(ys, text[k..]) {
      DescribedJoins(xs, ys, text, k);
    }
  }

  lemma HeadTakes(xs: seq<Atom>, text: Bytes) returns (k: nat)
    requires xs != [] && Describes(xs, text)
    ensures k <= |text| && Describes(xs[1..], text[k..])
    ensures !xs[0].Many? ==> k == 1 && xs[0].Has(text[0])
  {
    if xs[0].Many? {
      k :| 0 <= k <= |text| && Describes(xs[1..], text[k..]);
    } else {
      k := 1;
    }
  }

  lemma {:induction false} PrintConcat(xs: seq<Atom>, ys: seq<Atom>)
    ensures PrintAtoms(xs + ys) == PrintAtoms(xs) + PrintAtoms(ys)
  {
    if xs == [] {
      assert xs + ys == ys;
    } else {
      assert (xs + ys)[1..] == xs[1..] + ys;
      PrintConcat(xs[1..], ys);
    }
  }

  /** The language of a concatenation of printed patterns is the concatenation of their languages. */
  lemma ConcatMeans(xs: seq<Atom>, ys: seq<Atom>, text: Bytes)
    requires AllProper(xs) && AllProper(ys)
    ensures InLanguage(PrintAtoms(xs) + PrintAtoms(ys), text)
            <==> exists k :: 0 <= k <= |text| && InLanguage(PrintAtoms(xs), text[..k])
                             && InLanguage(PrintAtoms(ys), text[k..])
  {
    hide InLanguage, Describes;
    PrintConcat(xs, ys);
    PatternMeans(xs + ys, text);
    DescribesConcat(xs, ys, text);
    forall k | 0 <= k <= |text|
      ensures InLanguage(PrintAtoms(xs), text[..k]) <==> Describes(xs, text[..k])
      ensures InLanguage(PrintAtoms(ys), text[k..]) <==> Describes(ys, text[k..])
    {
      PatternMeans(xs, text[..k]);
      PatternMeans(ys, text[k..]);
    }
  }

  // ----- patterns in byte values -----

  /** One atom, other than the star, accepts exactly the one-byte texts of its bytes. */
  lemma OneAtom(atom: Atom, text: Bytes)
    requires atom.Proper() && !atom.Many?
    ensures InLanguage(atom.Print(), text) <==> |text| == 1 && atom.Has(text[0])
  {
    hide InLanguage;
    PatternMeans([atom], text);
    assert [atom][1..] == [] && atom.Print() + PrintAtoms([]) == atom.Print();
    assert PrintAtoms([atom]) == atom.Print();
    assert |text| == 1 ==> text[1..] == [];
  }

  lemma {:induction false} OnesPrint(body: Bytes)
    ensures var ones := seq(|body|, i requires 0 <= i < |body| => One(body[i]));
            PrintMembers(ones) == body
  {
    if body != [] {
      var ones := seq(|body|, i requires 0 <= i < |body| => One(body[i]));
      OnesPrint(body[1..]);
      assert ones[1..] == seq(|body[1..]|, i requires 0 <= i < |body[1..]| => One(body[1..][i]));
    }
  }

  lemma OnesHave(body: Bytes, c: byte)
    ensures var ones := seq(|body|, i requires 0 <= i < |body| => One(body[i]));
            AnyHas(ones, c) <==> c in body
  {
    var ones := seq(|body|, i requires 0 <= i < |body| => One(body[i]));
    if c in body {
      var i :| 0 <= i < |body| && body[i] == c;
      assert ones[i].Has(c);
    }
  }

  /** A class accepts the bytes that stand in it. */
  lemma ClassOfBytes(body: Bytes, text: Bytes)
    requires 93 !in body && 45 !in body && (body != [] ==> body[0] != 94 && body[0] != 33)
    ensures InLanguage([91] + body + [93], text) <==> |text| == 1 && text[0] in body
  {
    hide InLanguage, AnyHas;
    var ones := seq(|body|, i requires 0 <= i < |body| => One(body[i]));
    OnesPrint(body);
    OneAtom(Among(ones), text);
    if |text| == 1 {
      OnesHave(body, text[0]);
    }
  }

  /** With 94 or 33 in front, it accepts all other bytes. */
  lemma ClassOfOtherBytes(mark: byte, body: Bytes, text: Bytes)
    requires (mark == 94 || mark == 33) && 93 !in body && 45 !in body
    ensures InLanguage([91, mark] + body + [93], text) <==> |text| == 1 && text[0] !in body
  {
    hide InLanguage, AnyHas;
    var ones := seq(|body|, i requires 0 <= i < |body| => One(body[i]));
    OnesPrint(body);
    OneAtom(Except(mark, ones), text);
    if |text| == 1 {
      OnesHave(body, text[0]);
    }
  }

  /** A range accepts the bytes from its first to its last. */
  lemma ClassOfRange(lo: byte, hi: byte, text: Bytes)
    requires lo != 93 && lo != 45 && lo != 94 && lo != 33 && hi != 93
    ensures InLanguage([91, lo, 45, hi, 93], text) <==> |text| == 1 && lo <= text[0] <= hi
  {
    hide InLanguage;
    var atom := Among([From(lo, hi)]);
    OneAtom(atom, text);
    OneMember(From(lo, hi), if |text| == 1 then text[0] else 0);
    assert atom.Print() == [91, lo, 45, hi, 93];
  }

  /** A hyphen before the end of a class stands for itself. */
  lemma HyphenAtEnd(b: byte, text: Bytes)
    requires b != 93 && b != 45 && b != 94 && b != 33
    ensures InLanguage([91, b, 45, 93], text) <==> |text| == 1 && (text[0] == b || text[0] == 45)
  {
    var pat: Bytes := [91, b, 45, 93];
    assert ClassBody(pat, 3) == ([], true, 4);
    assert [Span(45, 45)] + [] == [Span(45, 45)];
    assert ClassBody(pat, 2) == ([Span(45, 45)], true, 4);
    assert [Span(b, b)] + [Span(45, 45)] == [Span(b, b), Span(45, 45)];
    assert ClassBody(pat, 1) == ([Span(b, b), Span(45, 45)], true, 4);
    var token := Class(false, [Span(b, b), Span(45, 45)]);
    assert Tokens(pat, 4) == [] && Tokens(pat, 0) == [token];
    OneToken(token, text);
    assert token.spans[0] == Span(b, b) && token.spans[1] == Span(45, 45);
  }

  lemma OneMember(m: Member, c: byte)
    ensures AnyHas([m], c) <==> m.Has(c)
    ensures PrintMembers([m]) == m.Print()
  {
    assert [m][0] == m && [m][1..] == [];
  }

  /** A pattern without special bytes accepts exactly itself. */
  lemma {:induction false} PlainText(pat: Bytes, text: Bytes)
    requires 42 !in pat && 63 !in pat && 91 !in pat && 92 !in pat
    ensures InLanguage(pat, text) <==> text == pat
  {
    hide InLanguage;
    var atoms := seq(|pat|, i requires 0 <= i < |pat| => Plain(pat[i]));
    PlainAtoms(pat, text);
    PatternMeans(atoms, text);
  }

  lemma {:induction false} PlainAtoms(pat: Bytes, text: Bytes)
    ensures var atoms := seq(|pat|, i requires 0 <= i < |pat| => Plain(pat[i]));
            PrintAtoms(atoms) == pat && (Describes(atoms, text) <==> text == pat)
    decreases |pat|
  {
    var atoms := seq(|pat|, i requires 0 <= i < |pat| => Plain(pat[i]));
    if pat != [] {
      assert atoms[1..] == seq(|pat[1..]|, i requires 0 <= i < |pat[1..]| => Plain(pat[1..][i]));
      PlainAtoms(pat[1..], if text == [] then [] else text[1..]);
      assert text != [] ==> text == [text[0]] + text[1..];
    }
  }

  /** The byte 63 accepts every one-byte text, and 92 takes the next byte as it is. */
  lemma SingleAndEscaped(b: byte, text: Bytes)
    ensures InLanguage([63], text) <==> |text| == 1
    ensures InLanguage([92, b], text) <==> text == [b]
    ensures InLanguage([42], text)
  {
    hide InLanguage;
    OneAtom(Single, text);
    OneAtom(Escaped(b), text);
    PatternMeans([Many], text);
    assert [Many][1..] == [] && PrintAtoms([Many]) == [42] + PrintAtoms([]) == [42];
    assert text[|text|..] == [] && Describes([Many][1..], text[|text|..]);
  }

  /** A class that is not closed: nothing, or any one byte if it is negated; and a trailing 92: nothing. */
  lemma Unfinished(mark: byte, body: Bytes, text: Bytes)
    requires (mark == 94 || mark == 33) && 93 !in body
    ensures (body == [] || (body[0] != 94 && body[0] != 33)) ==> !InLanguage([91] + body, text)
    ensures InLanguage([91, mark] + body, text) <==> |text| == 1
    ensures !InLanguage([92], text)
  {
    var p, q := [91] + body, [91, mark] + body;
    NeverClosed([91], body);
    NeverClosed([91, mark], body);
    assert Tokens(p, |p|) == [] && Tokens(q, |q|) == [] && Tokens([92], 1) == [];
    assert body == [] || (body[0] != 94 && body[0] != 33) ==> Tokens(p, 0) == [Never];
    assert Tokens(q, 0) == [Class(true, [])];
    assert Tokens([92], 0) == [Never];
    OneToken(Never, text);
    OneToken(Class(true, []), text);
  }

  lemma OneToken(token: Token, text: Bytes)
    requires token != Star
    ensures Matches([token], text) <==> |text| == 1 && Accepts(token, text[0])
  {
    hide Accepts;
    assert [token][1..] == [] && (text != [] ==> text == [text[0]] + text[1..]);
  }

  lemma {:induction false} NeverClosed(front: Bytes, body: Bytes)
    requires 93 !in body
    ensures !ClassBody(front + body, |front|).1
    decreases |body|
  {
    var pat, p := front + body, |front|;
    if body == [] {
      assert ClassBody(pat, p) == ([], false, p);
    } else {
      assert pat[p] == body[0] && body[0] in body;
      var n := if |body| > 2 && body[1] == 45 then 3 else 1;
      assert |body| > 1 ==> pat[p + 1] == body[1];
      assert |body| > 2 ==> pat[p + 2] == body[2] && body[2] in body;
      assert pat == (front + body[..n]) + body[n..] && |front + body[..n]| == p + n;
      assert 93 !in body[n..];
      NeverClosed(front + body[..n], body[n..]);
      assert ClassBody(pat, p).1 == ClassBody(pat, p + n).1;
    }
  }
}

/** What the frame functions promise: prefix stability, agreement of Check and Parse, round trips. */
module FrameLaws {
  import opened Wrappers
  import opened ByteStrings
  import opened Frames
  import Decimals
  import Utf8

  // ----- a settled answer does not depend on the bytes that follow -----

  ghost predicate Settled<T>(r: Outcome<T>) {
    r != Failure(Incomplete)
  }

  lemma {:induction false} LineExtends(s: Bytes, t: Bytes)
    requires Line(s).Success?
    ensures Line(s + t) == Line(s)
    ensures (s + t)[..Line(s).value] == s[..Line(s).value]
  {
    if !(s[0] == CR && s[1] == LF) {
      LineExtends(s[1..], t);
      assert (s + t)[1..] == s[1..] + t;
    }
  }

  lemma DecimalExtends(s: Bytes, t: Bytes)
    requires Settled(Decimal(s))
    ensures Decimal(s + t) == Decimal(s)
  {
    LineExtends(s, t);
  }

  lemma BulkExtends(s: Bytes, t: Bytes)
    ensures Settled(CheckBulk(s)) ==> CheckBulk(s + t) == CheckBulk(s)
    ensures Settled(ParseBulk(s)) ==> ParseBulk(s + t) == ParseBulk(s)
  {
    if s != [] {
      if s[0] == MINUS {
        if Settled(Line(s)) {
          LineExtends(s, t);
        }
      } else if Settled(Decimal(s)) {
        DecimalExtends(s, t);
        if Decimal(s).Success? {
          var (len, n) := Decimal(s).value;
          if 0 <= len && len + 2 <= |s| - n {
            assert (s + t)[n..n + len] == s[n..n + len];
          }
        }
      }
    }
  }

  lemma LeafExtends(s: Bytes, t: Bytes)
    requires s != []
    ensures Settled(CheckLeaf(s)) ==> CheckLeaf(s + t) == CheckLeaf(s)
    ensures Settled(ParseLeaf(s)) ==> ParseLeaf(s + t) == ParseLeaf(s)
  {
    hide Utf8.Valid, Utf8.Words, CheckBulk, ParseBulk;
    var u := s[1..];
    assert (s + t)[1..] == u + t;
    if s[0] == DOLLAR {
      BulkExtends(u, t);
    } else if s[0] == COLON {
      if Settled(Decimal(u)) {
        DecimalExtends(u, t);
      }
    } else if s[0] == PLUS || s[0] == MINUS {
      if Line(u).Success? {
        LineExtends(u, t);
      }
    } else if Line(s).Success? {
      LineExtends(s, t);
    }
  }

  /**
   An accepted length stays accepted, and a format error stays the same error, whatever bytes
   follow the buffer.
   */
  lemma {:induction false} CheckExtends(s: Bytes, t: Bytes)
    requires Settled(Check(s))
    ensures Check(s + t) == Check(s)
    decreases |s|, 0
  {
    hide CheckLeaf, ParseLeaf, Decimal;
    var u := s[1..];
    assert (s + t)[1..] == u + t;
    if s[0] != STAR {
      LeafExtends(s, t);
    } else {
      DecimalExtends(u, t);
      if Decimal(u).Success? && Decimal(u).value.0 >= 0 {
        var (len, n) := Decimal(u).value;
        assert (s + t)[1 + n..] == s[1 + n..] + t;
        CheckManyExtends(s[1 + n..], len, t);
      }
    }
  }

  lemma {:induction false} CheckManyExtends(s: Bytes, count: nat, t: Bytes)
    requires Settled(CheckMany(s, count))
    ensures CheckMany(s + t, count) == CheckMany(s, count)
    decreases |s|, 1 + count
  {
    hide CheckLeaf, ParseLeaf, Decimal;
    if count > 0 {
      CheckExtends(s, t);
      if Check(s).Success? {
        var n := Check(s).value;
        assert (s + t)[n..] == s[n..] + t;
        CheckManyExtends(s[n..], count - 1, t);
      }
    }
  }

  /** Every strict prefix of an accepted frame is incomplete: never an error, never a shorter frame. */
  lemma CheckStrictPrefix(s: Bytes, k: nat)
    requires Check(s).Success? && k < Check(s).value
    ensures Check(s[..k]) == Failure(Incomplete)
  {
    assert s[..k] + s[k..] == s;
    if Settled(Check(s[..k])) {
      CheckExtends(s[..k], s[k..]);
    }
  }

  /** The accepted bytes alone decide: the frame is accepted again when nothing else is there. */
  lemma CheckExact(s: Bytes)
    requires Check(s).Success?
    ensures Check(s[..Check(s).value]) == Check(s)
  {
    var n := Check(s).value;
    CheckDetermined(s, n);
  }

  lemma {:induction false} LineDetermined(s: Bytes, k: nat)
    requires Line(s).Success? && Line(s).value + 2 <= k <= |s|
    ensures Line(s[..k]) == Line(s) && s[..k][..Line(s).value] == s[..Line(s).value]
  {
    if !(s[0] == CR && s[1] == LF) {
      LineDetermined(s[1..], k - 1);
      assert s[..k][1..] == s[1..][..k - 1];
    }
  }

  lemma DecimalDetermined(s: Bytes, k: nat)
    requires Decimal(s).Success? && Decimal(s).value.1 <= k <= |s|
    ensures Decimal(s[..k]) == Decimal(s)
  {
    LineDetermined(s, k);
  }

  lemma BulkDetermined(s: Bytes, k: nat)
    requires CheckBulk(s).Success? && CheckBulk(s).value <= k <= |s|
    ensures CheckBulk(s[..k]) == CheckBulk(s)
  {
    hide Utf8.Valid, Decimals.Read;
    LineDetermined(s, k);
  }

  lemma LeafDetermined(s: Bytes, k: nat)
    requires s != [] && CheckLeaf(s).Success? && CheckLeaf(s).value <= k <= |s|
    ensures CheckLeaf(s[..k]) == CheckLeaf(s)
  {
    hide Utf8.Valid, Decimal, CheckBulk;
    assert s[..k][1..] == s[1..][..k - 1];
    if s[0] == DOLLAR {
      BulkDetermined(s[1..], k - 1);
    } else if s[0] == COLON {
      DecimalDetermined(s[1..], k - 1);
    } else if s[0] == PLUS || s[0] == MINUS {
      LineDetermined(s[1..], k - 1);
    } else {
      LineDetermined(s, k);
    }
  }

  /** Only the first `Check(s).value` bytes are looked at. */
  lemma {:induction false} CheckDetermined(s: Bytes, k: nat)
    requires Check(s).Success? && Check(s).value <= k <= |s|
    ensures Check(s[..k]) == Check(s)
    decreases |s|, 0
  {
    hide Check, CheckLeaf, CheckMany, Decimal, Line;
    CheckParts(s);
    CheckParts(s[..k]);
    if s[0] != STAR {
      LeafDetermined(s, k);
      CutAfter(s, 1, k);
    } else {
      var (len, n) := Decimal(s[1..]).value;
      CutAfter(s, 1, k);
      CutAfter(s, 1 + n, k);
      DecimalDetermined(s[1..], k - 1);
      CheckManyDetermined(s[1 + n..], len, k - 1 - n);
    }
  }

  /** The check of an array is the check of its length line and of its items. */
  lemma CheckParts(s: Bytes)
    ensures s == [] ==> Check(s) == Failure(Incomplete)
    ensures s != [] && s[0] != STAR ==> Check(s) == CheckLeaf(s)
    ensures s != [] && s[0] == STAR ==>
              match Decimal(s[1..])
              case Failure(e) => Check(s) == Failure(e)
              case Success((len, n)) =>
                if len < 0 then Check(s) == Failure(Other(NegativeArrayLength))
                else
                  match CheckMany(s[1 + n..], len)
                  case Failure(e) => Check(s) == Failure(e)
                  case Success(m) => Check(s) == Success(1 + n + m)
  {
    hide CheckLeaf, CheckMany, Decimal;
  }

  lemma CutAfter(s: Bytes, n: nat, k: nat)
    requires 0 < n <= k <= |s|
    ensures s[..k][n..] == s[n..][..k - n] && s[..k][0] == s[0]
  {
  }

  lemma {:induction false} CheckManyDetermined(s: Bytes, count: nat, k: nat)
    requires CheckMany(s, count).Success? && CheckMany(s, count).value <= k <= |s|
    ensures CheckMany(s[..k], count) == CheckMany(s, count)
    decreases |s|, 1 + count
  {
    hide Check, CheckLeaf, Decimal;
    if count > 0 {
      var n := Check(s).value;
      CheckDetermined(s, k);
      assert s[..k][n..] == s[n..][..k - n];
      CheckManyDetermined(s[n..], count - 1, k - n);
    }
  }

  lemma {:induction false} ParseExtends(s: Bytes, t: Bytes)
    requires Settled(Parse(s))
    ensures Parse(s + t) == Parse(s)
    decreases |s|, 0
  {
    hide CheckLeaf, ParseLeaf, Decimal;
    var u := s[1..];
    assert (s + t)[1..] == u + t;
    if s[0] != STAR {
      LeafExtends(s, t);
    } else {
      DecimalExtends(u, t);
      if Decimal(u).Success? && Decimal(u).value.0 >= 0 {
        var (len, n) := Decimal(u).value;
        assert (s + t)[1 + n..] == s[1 + n..] + t;
        ParseManyExtends(s[1 + n..], len, t);
      }
    }
  }

  lemma {:induction false} ParseManyExtends(s: Bytes, count: nat, t: Bytes)
    requires Settled(ParseMany(s, count))
    ensures ParseMany(s + t, count) == ParseMany(s, count)
    decreases |s|, 1 + count
  {
    hide CheckLeaf, ParseLeaf, Decimal;
    if count > 0 {
      ParseExtends(s, t);
      if Parse(s).Success? {
        var n := Parse(s).value.1;
        assert (s + t)[n..] == s[n..] + t;
        ParseManyExtends(s[n..], count - 1, t);
      }
    }
  }

  // ----- Check and Parse agree -----

  ghost predicate TextError<T>(r: Outcome<T>) {
    r == Failure(Other(InvalidUtf8String)) || r == Failure(Other(InvalidUtf8Inline))
  }

  lemma LeafAgree(s: Bytes)
    requires s != []
    ensures CheckLeaf(s).Success? ==>
              (ParseLeaf(s).Success? && ParseLeaf(s).value.1 == CheckLeaf(s).value) || TextError(ParseLeaf(s))
    ensures ParseLeaf(s).Success? ==> CheckLeaf(s) == Success(ParseLeaf(s).value.1)
  {
    hide Utf8.Valid, Utf8.Words;
  }

  /**
   On a checked frame decoding consumes exactly the checked bytes, or fails because a text is not
   UTF-8; and whatever decoding accepts is accepted by the check, with the same length.
   */
  lemma {:induction false} CheckParseAgree(s: Bytes)
    ensures Check(s).Success? ==>
              (Parse(s).Success? && Parse(s).value.1 == Check(s).value) || TextError(Parse(s))
    ensures Parse(s).Success? ==> Check(s) == Success(Parse(s).value.1)
    decreases |s|, 0
  {
    hide CheckLeaf, ParseLeaf, Decimal;
    if s != [] && s[0] == STAR {
      var d := Decimal(s[1..]);
      if d.Success? && d.value.0 >= 0 {
        CheckParseManyAgree(s[1 + d.value.1..], d.value.0);
      }
    } else if s != [] {
      LeafAgree(s);
    }
  }

  lemma {:induction false} CheckParseManyAgree(s: Bytes, count: nat)
    ensures CheckMany(s, count).Success? ==>
              (ParseMany(s, count).Success? && ParseMany(s, count).value.1 == CheckMany(s, count).value)
              || TextError(ParseMany(s, count))
    ensures ParseMany(s, count).Success? ==> CheckMany(s, count) == Success(ParseMany(s, count).value.1)
    decreases |s|, 1 + count
  {
    hide CheckLeaf, ParseLeaf, Decimal;
    if count > 0 {
      CheckParseAgree(s);
      if Check(s).Success? {
        CheckParseManyAgree(s[Check(s).value..], count - 1);
      }
    }
  }

  /** The check never fails because a text is not UTF-8: it does not look at texts. */
  lemma {:induction false} CheckHasNoTextError(s: Bytes)
    ensures !TextError(Check(s))
    decreases |s|, 0
  {
    hide Utf8.Valid, Line, Decimals.Read;
    if s != [] && s[0] == STAR {
      var d := Decimal(s[1..]);
      if d.Success? && d.value.0 >= 0 {
        CheckManyHasNoTextError(s[1 + d.value.1..], d.value.0);
      }
    }
  }

  lemma {:induction false} CheckManyHasNoTextError(s: Bytes, count: nat)
    ensures !TextError(CheckMany(s, count))
    decreases |s|, 1 + count
  {
    hide CheckLeaf, Decimal;
    if count > 0 {
      CheckHasNoTextError(s);
      if Check(s).Success? {
        CheckManyHasNoTextError(s[Check(s).value..], count - 1);
      }
    }
  }

  /** Whether the text lines of a checked frame are UTF-8; bulk strings may hold any bytes. */
  predicate CleanLeaf(s: Bytes)
    requires s != [] && CheckLeaf(s).Success?
  {
    if s[0] == PLUS || s[0] == MINUS then Utf8.Valid(s[1..][..Line(s[1..]).value])
    else if s[0] == COLON || s[0] == DOLLAR then true
    else Utf8.Valid(s[..Line(s).value])
  }

  predicate Clean(s: Bytes)
    requires Check(s).Success?
    decreases |s|, 0
  {
    if s[0] == STAR then
      var (len, n) := Decimal(s[1..]).value;
      CleanMany(s[1 + n..], len)
    else CleanLeaf(s)
  }

  predicate CleanMany(s: Bytes, count: nat)
    requires CheckMany(s, count).Success?
    decreases |s|, 1 + count
  {
    count == 0 || (Clean(s) && CleanMany(s[Check(s).value..], count - 1))
  }

  /** A checked frame is decoded exactly when its text lines are UTF-8. */
  lemma {:induction false} ParsesWhenClean(s: Bytes)
    requires Check(s).Success?
    ensures Parse(s).Success? <==> Clean(s)
    decreases |s|, 0
  {
    hide Utf8.Valid, CheckBulk, Decimal;
    if s[0] == STAR {
      var (len, n) := Decimal(s[1..]).value;
      ParsesWhenCleanMany(s[1 + n..], len);
    } else {
      LeafParsesWhenClean(s);
    }
  }

  lemma LeafParsesWhenClean(s: Bytes)
    requires s != [] && CheckLeaf(s).Success?
    ensures ParseLeaf(s).Success? <==> CleanLeaf(s)
  {
    hide Utf8.Valid, Utf8.Words;
  }

  lemma {:induction false} ParsesWhenCleanMany(s: Bytes, count: nat)
    requires CheckMany(s, count).Success?
    ensures ParseMany(s, count).Success? <==> CleanMany(s, count)
    decreases |s|, 1 + count
  {
    hide CheckLeaf, ParseLeaf, CleanLeaf, Decimal;
    if count > 0 {
      ParsesWhenClean(s);
      CheckParseAgree(s);
      ParsesWhenCleanMany(s[Check(s).value..], count - 1);
    }
  }

  /** Decoding the checked bytes alone gives what decoding the whole buffer gives. */
  lemma ParseExact(s: Bytes)
    requires Check(s).Success?
    ensures Parse(s[..Check(s).value]) == Parse(s)
  {
    var n := Check(s).value;
    CheckExact(s);
    CheckParseAgree(s[..n]);
    ParseExtends(s[..n], s[n..]);
    assert s[..n] + s[n..] == s;
  }

  // ----- everything that is decoded can be printed -----

  lemma {:induction false} LineIsSingle(s: Bytes)
    requires Line(s).Success?
    ensures SingleLine(s[..Line(s).value])
  {
    if !(s[0] == CR && s[1] == LF) {
      LineIsSingle(s[1..]);
      var text, rest := s[..Line(s).value], s[1..][..Line(s[1..]).value];
      forall i | 0 <= i < |text| - 1
        ensures !(text[i] == CR && text[i + 1] == LF)
      {
        if i > 0 {
          assert text[i] == rest[i - 1] && text[i + 1] == rest[i];
        }
      }
    }
  }

  /** Every decoded frame, inline commands included, lies in the domain of the round trip. */
  lemma {:induction false} ParsedIsPrintable(s: Bytes)
    requires Parse(s).Success? && |s| <= Decimals.I64_MAX
    ensures Printable(Parse(s).value.0)
    decreases |s|, 0
  {
    hide Decimal, ParseLeaf;
    if s[0] == STAR {
      var (len, n) := Decimal(s[1..]).value;
      ParsedManyArePrintable(s[1 + n..], len);
    } else {
      ParsedLeafIsPrintable(s);
    }
  }

  lemma ParsedLeafIsPrintable(s: Bytes)
    requires s != [] && ParseLeaf(s).Success? && |s| <= Decimals.I64_MAX
    ensures Printable(ParseLeaf(s).value.0)
  {
    hide Decimals.Read, Utf8.CharLength, Utf8.Words, Utf8.Valid;
    if s[0] == PLUS || s[0] == MINUS {
      LineIsSingle(s[1..]);
    } else if s[0] != COLON && s[0] != DOLLAR {
      Utf8.WordsBounds(s[..Line(s).value], []);
    }
  }

  lemma {:induction false} ParsedManyArePrintable(s: Bytes, count: nat)
    requires ParseMany(s, count).Success? && |s| <= Decimals.I64_MAX
    ensures AllPrintable(ParseMany(s, count).value.0)
    decreases |s|, 1 + count
  {
    hide Parse, Printable, Utf8.Valid;
    if count > 0 {
      ParsedIsPrintable(s);
      ParsedManyArePrintable(s[Parse(s).value.1..], count - 1);
    }
  }

  // ----- printing, then decoding -----

  lemma {:induction false} LineOf(text: Bytes, t: Bytes)
    requires SingleLine(text)
    ensures Line(text + CRLF + t) == Success(|text|)
    ensures (text + CRLF + t)[..|text|] == text
    ensures (text + CRLF + t)[|text| + 2..] == t
  {
    var s := text + CRLF + t;
    if text != [] {
      var rest := text[1..];
      assert SingleLine(rest) by {
        forall i | 0 <= i < |rest| - 1
          ensures !(rest[i] == CR && rest[i + 1] == LF)
        {
          assert rest[i] == text[i + 1] && rest[i + 1] == text[i + 1 + 1];
        }
      }
      LineOf(rest, t);
      assert s[1..] == rest + CRLF + t;
      if |text| == 1 {
        assert s[1] == CR;
      } else {
        assert s[1] == text[1];
      }
    }
  }

  lemma DecimalOf(n: int, t: Bytes)
    requires Decimals.IsI64(n)
    ensures Decimal(Decimals.Show(n) + CRLF + t) == Success((n, |Decimals.Show(n)| + 2))
    ensures (Decimals.Show(n) + CRLF + t)[|Decimals.Show(n)| + 2..] == t
    ensures (Decimals.Show(n) + CRLF + t)[0] == MINUS <==> n < 0
  {
    Decimals.ShowShape(n);
    Decimals.ReadShow(n);
    Utf8.AsciiIsValid(Decimals.Show(n));
    LineOf(Decimals.Show(n), t);
  }

  lemma BulkOf(data: Bytes, t: Bytes)
    requires |data| <= Decimals.I64_MAX
    ensures ParseBulk(Decimals.Show(|data|) + CRLF + data + CRLF + t)
         == Success((Bulk(data), |Decimals.Show(|data|) + CRLF + data + CRLF|))
  {
    hide Decimal, Decimals.Show, Line;
    var head := Decimals.Show(|data|) + CRLF;
    var s := head + data + CRLF + t;
    DecimalOf(|data|, data + CRLF + t);
    assert s == head + (data + CRLF + t);
    DataBetween(head, data, t);
  }

  lemma DataBetween(head: Bytes, data: Bytes, t: Bytes)
    ensures var s := head + data + CRLF + t;
            s[|head|..|head| + |data|] == data && s[|head| + |data|] == CR && s[|head| + |data| + 1] == LF
  {
  }

  lemma NullOf(t: Bytes)
    ensures ParseBulk([MINUS, 49] + CRLF + t) == Success((Null, 4))
  {
    LineOf([MINUS, 49], t);
  }

  lemma LeafRoundTrip(f: Frame, t: Bytes)
    requires Printable(f) && !f.Array?
    ensures Encode(f) != [] && Encode(f)[0] != STAR
    ensures ParseLeaf(Encode(f) + t) == Success((f, |Encode(f)|))
  {
    hide Utf8.Valid, Utf8.Words, Utf8.CharLength, Line, Decimal, ParseBulk, Decimals.Show;
    var s := Encode(f) + t;
    match f
    case Simple(text) =>
      LineOf(text, t);
      assert s[1..] == text + CRLF + t;
    case Error(text) =>
      LineOf(text, t);
      assert s[1..] == text + CRLF + t;
    case Integer(v) =>
      DecimalOf(v, t);
      assert s[1..] == Decimals.Show(v) + CRLF + t;
    case Null =>
      NullOf(t);
      assert s[1..] == [MINUS, 49] + CRLF + t;
    case Bulk(data) =>
      BulkOf(data, t);
      assert s[1..] == Decimals.Show(|data|) + CRLF + data + CRLF + t;
  }

  /** A printed array starts with its length line, and its items follow. */
  lemma ArrayHead(items: seq<Frame>, t: Bytes) returns (n: nat)
    requires |items| <= Decimals.I64_MAX
    ensures var s := Encode(Array(items)) + t;
            && s != [] && s[0] == STAR && Decimal(s[1..]) == Success((|items|, n))
            && s[1 + n..] == EncodeAll(items) + t && |Encode(Array(items))| == 1 + n + |EncodeAll(items)|
  {
    hide Decimal, Decimals.Show, EncodeAll;
    var s := Encode(Array(items)) + t;
    var head := Decimals.Show(|items|) + CRLF;
    n := |head|;
    DecimalOf(|items|, EncodeAll(items) + t);
    assert Encode(Array(items)) == [STAR] + head + EncodeAll(items);
    assert s[1..] == head + (EncodeAll(items) + t);
    assert s[1 + n..] == EncodeAll(items) + t;
  }

  /** Decoding a printed frame, whatever follows it, returns the frame and stops at its end. */
  lemma {:induction false} RoundTrip(f: Frame, t: Bytes)
    requires Printable(f)
    ensures Parse(Encode(f) + t) == Success((f, |Encode(f)|))
    decreases f, 0
  {
    hide ParseLeaf, Decimal, Encode, EncodeAll;
    if f.Array? {
      var _ := ArrayHead(f.items, t);
      RoundTripMany(f.items, t);
    } else {
      LeafRoundTrip(f, t);
    }
  }

  lemma {:induction false} RoundTripMany(fs: seq<Frame>, t: Bytes)
    requires AllPrintable(fs)
    ensures ParseMany(EncodeAll(fs) + t, |fs|) == Success((fs, |EncodeAll(fs)|))
    decreases fs, 1
  {
    hide Parse, Encode, Printable;
    if fs != [] {
      var rest := EncodeAll(fs[1..]) + t;
      assert EncodeAll(fs) + t == Encode(fs[0]) + rest;
      RoundTrip(fs[0], rest);
      RoundTripMany(fs[1..], t);
      assert (Encode(fs[0]) + rest)[|Encode(fs[0])|..] == rest;
      assert [fs[0]] + fs[1..] == fs;
    }
  }

  /** A printed frame is checked, and its length is the length of its text. */
  lemma CheckEncode(f: Frame, t: Bytes)
    requires Printable(f)
    ensures Check(Encode(f) + t) == Success(|Encode(f)|)
    ensures 2 <= |Encode(f)|
  {
    RoundTrip(f, t);
    CheckParseAgree(Encode(f) + t);
  }

  /** Printing what was received and decoding it again is the identity. */
  lemma ReprintReceived(s: Bytes, t: Bytes)
    requires Parse(s).Success? && |s| <= Decimals.I64_MAX
    ensures Parse(Encode(Parse(s).value.0) + t)
         == Success((Parse(s).value.0, |Encode(Parse(s).value.0)|))
  {
    ParsedIsPrintable(s);
    RoundTrip(Parse(s).value.0, t);
  }

  /** Distinct printable frames have distinct prints, neither a prefix of the other. */
  lemma EncodeIsPrefixFree(f: Frame, g: Frame, t: Bytes, u: Bytes)
    requires Printable(f) && Printable(g) && Encode(f) + t == Encode(g) + u
    ensures f == g && t == u
  {
    RoundTrip(f, t);
    RoundTrip(g, u);
    assert (Encode(f) + t)[|Encode(f)|..] == t;
    assert (Encode(g) + u)[|Encode(g)|..] == u;
  }
}

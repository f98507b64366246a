/** Padding a JSON text gives a JSON text: the same tree, with spaces at the end of the user content. */
module JsonPadding {
  import opened Sequences
  import opened Bytes
  import opened WireSpec
  import opened Json
  import opened JsonGrammar
  import opened Padding

  // Replacing one string of a text.

  predicate StringAt(s: bytes, i: nat) {
    Closed(s) && i < |TokensOf(s)| && TokensOf(s)[i].Str?
  }

  /** The text with other content in the string that is token `i`. */
  function Replaced(s: bytes, i: nat, raw: bytes): bytes
    requires StringAt(s, i)
  {
    Unlex(TokensOf(s)[i := Str(raw)])
  }

  lemma UpdateLeft(a: seq<Token>, b: seq<Token>, all: seq<Token>, i: nat, t: Token)
    requires all == a + b && i < |a|
    ensures i < |all| && all[i := t] == a[i := t] + b && all[i] == a[i]
  {
  }

  lemma UpdateRight(a: seq<Token>, b: seq<Token>, all: seq<Token>, i: nat, k: nat, t: Token)
    requires all == a + b && i < |b| && k == |a| + i
    ensures k < |all| && all[k := t] == a + b[i := t] && all[k] == b[i]
  {
  }

  lemma UnlexSum(a: seq<Token>, b: seq<Token>, all: seq<Token>)
    requires all == a + b
    ensures Unlex(all) == Unlex(a) + Unlex(b)
  {
    UnlexConcat(a, b);
  }

  lemma UnlexLeft(a: seq<Token>, b: seq<Token>, all: seq<Token>, i: nat, t: Token)
    requires all == a + b && i < |a|
    ensures Unlex(all[i := t]) == Unlex(a[i := t]) + Unlex(b) && all[i] == a[i]
  {
    UpdateLeft(a, b, all, i, t);
    UnlexSum(a[i := t], b, all[i := t]);
  }

  lemma UnlexRight(a: seq<Token>, b: seq<Token>, all: seq<Token>, i: nat, k: nat, t: Token)
    requires all == a + b && i < |b| && k == |a| + i
    ensures k < |all| && Unlex(all[k := t]) == Unlex(a) + Unlex(b[i := t]) && all[k] == b[i]
  {
    UpdateRight(a, b, all, i, k, t);
    UnlexSum(a, b[i := t], all[k := t]);
  }

  lemma ReplacedLeft(a: bytes, b: bytes, i: nat, raw: bytes)
    requires StringAt(a, i) && Closed(b)
    ensures StringAt(a + b, i) && TokensOf(a + b)[i] == TokensOf(a)[i]
    ensures Replaced(a + b, i, raw) == Replaced(a, i, raw) + b
  {
    ClosedConcat(a, b);
    LexUnlex(b);
    UnlexLeft(TokensOf(a), TokensOf(b), TokensOf(a + b), i, Str(raw));
  }

  lemma ReplacedRight(a: bytes, b: bytes, i: nat, raw: bytes)
    requires Closed(a) && StringAt(b, i)
    ensures StringAt(a + b, |TokensOf(a)| + i) && TokensOf(a + b)[|TokensOf(a)| + i] == TokensOf(b)[i]
    ensures Replaced(a + b, |TokensOf(a)| + i, raw) == a + Replaced(b, i, raw)
  {
    ClosedConcat(a, b);
    LexUnlex(a);
    UnlexRight(TokensOf(a), TokensOf(b), TokensOf(a + b), i, |TokensOf(a)| + i, Str(raw));
  }

  /** A string of two texts is a string of the first or of the second. */
  lemma StringOfTwo(a: bytes, b: bytes, i: nat)
    requires Closed(a) && Closed(b) && StringAt(a + b, i)
    ensures i < |TokensOf(a)| ==> StringAt(a, i)
    ensures i >= |TokensOf(a)| ==> StringAt(b, i - |TokensOf(a)|)
  {
    ClosedConcat(a, b);
  }

  /** A string between texts without strings. */
  lemma StringInside(open: bytes, inside: bytes, close: bytes, i: nat, raw: bytes) returns (j: nat)
    requires Stringless(open) && Closed(inside) && Stringless(close) && StringAt(open + inside + close, i)
    ensures StringAt(inside, j) && TokensOf(open + inside + close)[i] == TokensOf(inside)[j]
    ensures Replaced(open + inside + close, i, raw) == open + Replaced(inside, j, raw) + close
  {
    ClosedConcat(open, inside);
    StringOfTwo(open + inside, close, i);
    StringOfTwo(open, inside, i);
    j := i - |TokensOf(open)|;
    ReplacedRight(open, inside, j, raw);
    ReplacedLeft(open + inside, close, i, raw);
  }

  /** A string of the first or of the last of three texts. */
  lemma StringOfList(first: bytes, comma: bytes, rest: bytes, i: nat, raw: bytes) returns (inFirst: bool, j: nat)
    requires Closed(first) && Stringless(comma) && Closed(rest) && StringAt(first + comma + rest, i)
    ensures inFirst ==>
              (StringAt(first, j) && TokensOf(first + comma + rest)[i] == TokensOf(first)[j]
               && Replaced(first + comma + rest, i, raw) == Replaced(first, j, raw) + comma + rest)
    ensures !inFirst ==>
              (StringAt(rest, j) && TokensOf(first + comma + rest)[i] == TokensOf(rest)[j]
               && Replaced(first + comma + rest, i, raw) == first + comma + Replaced(rest, j, raw))
  {
    ClosedConcat(first, comma);
    StringOfTwo(first + comma, rest, i);
    if i < |TokensOf(first + comma)| {
      StringOfTwo(first, comma, i);
      inFirst, j := true, i;
      ReplacedLeft(first, comma, i, raw);
      ReplacedLeft(first + comma, rest, i, raw);
    } else {
      inFirst, j := false, i - |TokensOf(first + comma)|;
      ReplacedRight(first + comma, rest, j, raw);
    }
  }

  /** The new content is that of a string, if the old one is. */
  ghost predicate Allows(s: bytes, i: nat, raw: bytes) {
    StringAt(s, i) && (Chars(TokensOf(s)[i].raw) ==> Chars(raw))
  }

  lemma OneString(raw: bytes, i: nat, other: bytes)
    requires Chars(raw) && StringAt(Quoted(raw), i)
    ensures i == 0 && TokensOf(Quoted(raw))[i] == Str(raw) && Replaced(Quoted(raw), i, other) == Quoted(other)
  {
    StringTokens(raw);
    assert [Str(raw)][0 := Str(other)] == [Str(other)];
    UnlexOne(Str(other));
  }

  lemma {:induction false} ReplaceInValue(v: Value, i: nat, raw: bytes) returns (w: Value)
    requires v.Valid() && Allows(v.Text(), i, raw)
    ensures w.Valid() && w.Text() == Replaced(v.Text(), i, raw) && Chars(TokensOf(v.Text())[i].raw)
    decreases v
  {
    match v
    case Word(text) =>
      NoQuoteNoString(text);
      assert false;
    case Numeral(number) =>
      NumberHasNoString(number);
      assert false;
    case String(content) =>
      OneString(content, i, raw);
      w := String(raw);
    case Array(open, items, close) =>
      SignHasNoString(open, OPEN_ARRAY);
      SignHasNoString(close, CLOSE_ARRAY);
      ItemsAreGood(items);
      var j := StringInside(open.Text(OPEN_ARRAY), items.Text(), close.Text(CLOSE_ARRAY), i, raw);
      var others := ReplaceInItems(items, j, raw);
      w := Array(open, others, close);
    case Object(open, members, close) =>
      SignHasNoString(open, OPEN_OBJECT);
      SignHasNoString(close, CLOSE_OBJECT);
      MembersAreGood(members);
      var j := StringInside(open.Text(OPEN_OBJECT), members.Text(), close.Text(CLOSE_OBJECT), i, raw);
      var others := ReplaceInMembers(members, j, raw);
      w := Object(open, others, close);
  }

  lemma {:induction false} ReplaceInItems(items: Items, i: nat, raw: bytes) returns (others: Items)
    requires items.Valid() && Allows(items.Text(), i, raw)
    ensures others.Valid() && others.Text() == Replaced(items.Text(), i, raw) && Chars(TokensOf(items.Text())[i].raw)
    ensures others != NoItems
    decreases items
  {
    match items
    case NoItems =>
      assert false;
    case Item(value) =>
      var w := ReplaceInValue(value, i, raw);
      others := Item(w);
    case MoreItems(value, comma, rest) =>
      ValueIsGood(value);
      ItemsAreGood(rest);
      SignHasNoString(comma, COMMA);
      var inFirst, j := StringOfList(value.Text(), comma.Text(COMMA), rest.Text(), i, raw);
      if inFirst {
        var w := ReplaceInValue(value, j, raw);
        others := MoreItems(w, comma, rest);
      } else {
        var more := ReplaceInItems(rest, j, raw);
        others := MoreItems(value, comma, more);
      }
  }

  lemma {:induction false} ReplaceInMember(member: Member, i: nat, raw: bytes) returns (other: Member)
    requires member.Valid() && Allows(member.Text(), i, raw)
    ensures other.Valid() && other.Text() == Replaced(member.Text(), i, raw) && Chars(TokensOf(member.Text())[i].raw)
    decreases member
  {
    StringTokens(member.name);
    ValueIsGood(member.value);
    SignHasNoString(member.colon, COLON);
    var inName, j := StringOfList(Quoted(member.name), member.colon.Text(COLON), member.value.Text(), i, raw);
    if inName {
      OneString(member.name, j, raw);
      other := Member(raw, member.colon, member.value);
    } else {
      var w := ReplaceInValue(member.value, j, raw);
      other := Member(member.name, member.colon, w);
    }
  }

  lemma {:induction false} ReplaceInMembers(members: Members, i: nat, raw: bytes) returns (others: Members)
    requires members.Valid() && Allows(members.Text(), i, raw)
    ensures others.Valid() && others.Text() == Replaced(members.Text(), i, raw)
    ensures Chars(TokensOf(members.Text())[i].raw) && others != NoMembers
    decreases members
  {
    match members
    case NoMembers =>
      assert false;
    case OneMember(member) =>
      var other := ReplaceInMember(member, i, raw);
      others := OneMember(other);
    case MoreMembers(member, comma, rest) =>
      MemberIsGood(member);
      MembersAreGood(rest);
      SignHasNoString(comma, COMMA);
      var inFirst, j := StringOfList(member.Text(), comma.Text(COMMA), rest.Text(), i, raw);
      if inFirst {
        var other := ReplaceInMember(member, j, raw);
        others := MoreMembers(other, comma, rest);
      } else {
        var more := ReplaceInMembers(rest, j, raw);
        others := MoreMembers(member, comma, more);
      }
  }

  /** A JSON text with other content in one of its strings is a JSON text. */
  lemma ReplacedIsJson(s: bytes, i: nat, raw: bytes)
    requires IsJson(s) && Allows(s, i, raw)
    ensures IsJson(Replaced(s, i, raw))
  {
    var t: JsonText :| t.Valid() && t.Text() == s;
    BlankHasNoString(t.before);
    BlankHasNoString(t.after);
    ValueIsGood(t.value);
    var j := StringInside(t.before, t.value.Text(), t.after, i, raw);
    var w := ReplaceInValue(t.value, j, raw);
    var u := JsonText(t.before, w, t.after);
    assert u.Valid() && u.Text() == Replaced(s, i, raw);
  }

  // Padding.

  lemma {:induction false} SpacesAreChars(n: nat)
    ensures Chars(Repeat(SPACE, n))
  {
    if n > 0 {
      SpacesAreChars(n - 1);
      assert Repeat(SPACE, n)[1..] == Repeat(SPACE, n - 1);
    }
  }

  lemma DropConcat(a: bytes, b: bytes, n: nat)
    requires n <= |a|
    ensures (a + b)[n..] == a[n..] + b
  {
  }

  lemma SameHex(a: bytes, b: bytes)
    requires |a| >= 6
    ensures (a + b)[2..6] == a[2..6]
  {
  }

  lemma {:induction false} CharsConcat(a: bytes, b: bytes)
    requires Chars(a) && Chars(b)
    ensures Chars(a + b)
    decreases |a|
  {
    if a == [] {
      assert a + b == b;
    } else if a[0] != BACKSLASH {
      CharsConcat(a[1..], b);
      DropConcat(a, b, 1);
    } else if a[1] == 0x75 {
      CharsConcat(a[6..], b);
      DropConcat(a, b, 6);
      SameHex(a, b);
    } else {
      CharsConcat(a[2..], b);
      DropConcat(a, b, 2);
    }
  }

  lemma CharsAndSpaces(raw: bytes, n: nat)
    requires Chars(raw)
    ensures Chars(raw + Repeat(SPACE, n))
  {
    SpacesAreChars(n);
    CharsConcat(raw, Repeat(SPACE, n));
  }

  lemma JsonIsClosed(s: bytes)
    requires IsJson(s)
    ensures Closed(s) && JsonLike(s)
  {
    var t: JsonText :| t.Valid() && t.Text() == s;
    TextIsGood(t);
  }

  lemma GainingIsJson(body: bytes, padded: bytes, k: nat, i: nat)
    requires IsJson(body) && GainsSpaces(body, padded, k, i)
    ensures IsJson(padded)
  {
    JsonIsClosed(body);
    var raw := TokensOf(body)[i].raw;
    if Chars(raw) {
      CharsAndSpaces(raw, k);
    }
    ReplacedIsJson(body, i, raw + Repeat(SPACE, k));
    LexUnlex(padded);
  }

  lemma SameMeaningIsJson(body: bytes, padded: bytes)
    requires IsJson(body) && SameMeaning(body, padded)
    ensures IsJson(padded)
  {
    if padded != body {
      GainingIsJson(body, padded, |padded| - |body|, TokensBefore(body));
    }
  }

  /** A padded JSON text is a JSON text that means the same: the user content has spaces at its end, and
      nothing else differs. */
  lemma PaddedIsJson(body: bytes, n: nat)
    requires IsJson(body) && PadBody(body, n).Success?
    ensures SameMeaning(body, PadBody(body, n).value) && IsJson(PadBody(body, n).value)
  {
    JsonIsClosed(body);
    PadBodyKeepsMeaning(body, n);
    SameMeaningIsJson(body, PadBody(body, n).value);
  }

  /** Only JSON texts are accepted. */
  ghost predicate AcceptsJson(accepted: iset<bytes>) {
    forall body | body in accepted :: IsJson(body)
  }

  /** Whatever set of JSON texts is accepted: the body that `check_and_pad` returns is a JSON text and
      means what the caller's body means. */
  lemma CheckedBodyIsJson(accepted: iset<bytes>, config: RequestConfig, data: bytes)
    requires AcceptsJson(accepted) && CheckAndPad(accepted, config, data).Success?
    ensures SplitHttp(data).Success?
    ensures SameMeaning(SplitHttp(data).value.1, CheckAndPad(accepted, config, data).value.body)
    ensures IsJson(CheckAndPad(accepted, config, data).value.body)
  {
    PaddedIsJson(SplitHttp(data).value.1, config.contentLength);
  }
}

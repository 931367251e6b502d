/** A recording as JSON text that may be cut off anywhere (sections 2 to 7 of RFC 8259), and what Go's decoder makes
    of it: a token is delivered once its text is complete, and a number also when the text ends in one. */
module JsonText {
  import opened Common
  import opened StreamingJson
  import JsonNumber

  // ----- Compact text

  /** Sign: a comma or colon, which only separates tokens. Word: the text of a token. */
  datatype Piece = Sign(c: char) | Word(text: string, token: Token)

  datatype PieceList = Nil | Cons(head: Piece, tail: PieceList)

  function Append(ps: PieceList, qs: PieceList): PieceList {
    match ps
    case Nil => qs
    case Cons(p, rest) => Cons(p, Append(rest, qs))
  }

  function HexDigit(n: nat): char
    requires n < 16
  {
    "0123456789abcdef"[n]
  }

  /** Quotes, backslashes and control characters need escaping. */
  function EscapedChar(c: char): string {
    if c == '"' || c == '\\' then ['\\', c]
    else if c < ' ' then "\\u00" + [HexDigit(c as int / 16), HexDigit(c as int % 16)]
    else [c]
  }

  function Escaped(s: string): string {
    if s == "" then "" else EscapedChar(s[0]) + Escaped(s[1..])
  }

  function ScalarText(v: Json): string {
    match v
    case Null => "null"
    case Bool(b) => if b then "true" else "false"
    case Num(text) => text
    case Str(s) => "\"" + Escaped(s) + "\""
    case _ => ""
  }

  // ----- Spelling

  function HexValue(c: char): Option<nat> {
    if '0' <= c <= '9' then Some(c as int - '0' as int)
    else if 'a' <= c <= 'f' then Some(c as int - 'a' as int + 10)
    else if 'A' <= c <= 'F' then Some(c as int - 'A' as int + 10)
    else None
  }

  /** The character that four hexadecimal digits stand for, below the surrogates. */
  function FromHex(t: string): Option<char>
    requires |t| == 4
  {
    if exists i :: 0 <= i < 4 && HexValue(t[i]).None? then None
    else
      var high := HexValue(t[0]).value * 16 + HexValue(t[1]).value;
      var low := HexValue(t[2]).value * 16 + HexValue(t[3]).value;
      var n := high * 256 + low;
      if n < 0xD800 then Some(n as char) else None
  }

  /** A string's value and what follows its closing quote, read from just past the opening one (section 7 of
      RFC 8259). */
  function ReadString(t: string): Option<(string, string)> {
    if t == "" || t[0] < ' ' then None
    else if t[0] == '"' then Some(("", t[1..]))
    else if t[0] != '\\' then Before(t[0], ReadString(t[1..]))
    else if |t| >= 2 && t[1] in {'"', '\\', '/'} then Before(t[1], ReadString(t[2..]))
    else if |t| >= 6 && t[1] == 'u' && FromHex(t[2..6]).Some? then Before(FromHex(t[2..6]).value, ReadString(t[6..]))
    else None
  }

  function Before(c: char, r: Option<(string, string)>): Option<(string, string)> {
    if r.None? then None else Some(([c] + r.value.0, r.value.1))
  }

  lemma ControlRoundTrip(c: char)
    requires c < ' '
    ensures FromHex("00" + [HexDigit(c as int / 16), HexDigit(c as int % 16)]) == Some(c)
  {
    var t := "00" + [HexDigit(c as int / 16), HexDigit(c as int % 16)];
    HexRoundTrip(c as int / 16);
    HexRoundTrip(c as int % 16);
    assert t[0] == '0' && t[1] == '0' && t[2] == HexDigit(c as int / 16) && t[3] == HexDigit(c as int % 16);
    assert c as int / 16 * 16 + c as int % 16 == c as int;
  }

  lemma HexRoundTrip(n: nat)
    requires n < 16
    ensures HexValue(HexDigit(n)) == Some(n)
  {}

  lemma ReadHex(hex: string, c: char, more: string)
    requires |hex| == 4 && FromHex(hex) == Some(c)
    ensures ReadString("\\u" + hex + more) == Before(c, ReadString(more))
  {
    hide FromHex, Before;
    var t := "\\u" + hex + more;
    assert t[0] == '\\' && t[1] == 'u';
    assert t[2..6] == hex;
    assert t[6..] == more;
  }

  lemma ReadPlain(c: char, more: string)
    requires c >= ' ' && c != '"' && c != '\\'
    ensures ReadString([c] + more) == Before(c, ReadString(more))
  {
    assert ([c] + more)[1..] == more;
  }

  lemma ReadEscape(c: char, more: string)
    requires c == '"' || c == '\\'
    ensures ReadString(['\\', c] + more) == Before(c, ReadString(more))
  {
    assert (['\\', c] + more)[2..] == more;
  }

  lemma CharReadBack(c: char, more: string)
    ensures ReadString(EscapedChar(c) + more) == Before(c, ReadString(more))
  {
    hide ReadString, Before, FromHex;
    if c == '"' || c == '\\' {
      ReadEscape(c, more);
    } else if c < ' ' {
      var hex := "00" + [HexDigit(c as int / 16), HexDigit(c as int % 16)];
      ControlRoundTrip(c);
      assert EscapedChar(c) == "\\u" + hex;
      ReadHex(hex, c, more);
    } else {
      ReadPlain(c, more);
    }
  }

  lemma EscapedFirst(s: string, t: string)
    requires s != ""
    ensures Escaped(s) + t == EscapedChar(s[0]) + (Escaped(s[1..]) + t)
  {
    hide EscapedChar;
    StringsJoin(EscapedChar(s[0]), Escaped(s[1..]), t);
  }

  lemma StringsJoin(a: string, b: string, c: string)
    ensures a + b + c == a + (b + c)
  {}

  /** A string's text ends at its closing quote and reads as the string. */
  lemma {:induction false} StringReadBack(s: string, rest: string)
    ensures ReadString(Escaped(s) + ("\"" + rest)) == Some((s, rest))
  {
    var t := "\"" + rest;
    if s == "" {
      assert Escaped(s) + t == t && t[1..] == rest;
    } else {
      hide *;
      StringReadBack(s[1..], rest);
      EscapedFirst(s, t);
      CharReadBack(s[0], Escaped(s[1..]) + t);
      BeforeRest(s, rest);
    }
  }

  lemma BeforeRest(s: string, rest: string)
    requires s != ""
    ensures Before(s[0], Some((s[1..], rest))) == Some((s, rest))
  {
    assert [s[0]] + s[1..] == s;
  }

  /** The other scalars are spelled as RFC 8259 has them. */
  lemma Literals(text: string)
    ensures ScalarText(Null) == "null" && ScalarText(Bool(true)) == "true" && ScalarText(Bool(false)) == "false"
    ensures ScalarText(Num(text)) == text && ScalarText(Str(text)) == "\"" + Escaped(text) + "\""
  {}

  // ----- Pieces

  /** A bracket or brace. */
  function Bracket(c: char): Piece {
    Word([c], Delim(c))
  }

  function ScalarPiece(v: Json): Piece {
    Word(ScalarText(v), Scalar(v))
  }

  function PieceText(p: Piece): string {
    if p.Sign? then [p.c] else p.text
  }

  function Text(ps: PieceList): string {
    match ps
    case Nil => ""
    case Cons(p, rest) => PieceText(p) + Text(rest)
  }

  /** The length of the text. */
  function Size(ps: PieceList): nat {
    match ps
    case Nil => 0
    case Cons(p, rest) => |PieceText(p)| + Size(rest)
  }

  lemma {:induction false} SizeIsLength(ps: PieceList)
    ensures |Text(ps)| == Size(ps)
  {
    if ps.Cons? {
      SizeIsLength(ps.tail);
    }
  }

  function PieceTokens(p: Piece): Stream {
    if p.Sign? then [] else [p.token]
  }

  function AllTokens(ps: PieceList): Stream {
    match ps
    case Nil => []
    case Cons(p, rest) => PieceTokens(p) + AllTokens(rest)
  }

  /** A list's next element. */
  function FollowedBy(ps: PieceList, qs: PieceList): PieceList {
    if qs.Nil? then ps else Append(ps, Cons(Sign(','), qs))
  }

  function Enclosed(open: char, inner: PieceList, close: char): PieceList {
    Cons(Bracket(open), Append(inner, Closing(close)))
  }

  function Pieces(v: Json): PieceList {
    match v
    case Arr(items) => Enclosed('[', ItemPieces(items), ']')
    case Obj(members) => Enclosed('{', MemberPieces(members), '}')
    case _ => Cons(ScalarPiece(v), Nil)
  }

  function ItemPieces(items: Items): PieceList {
    match items
    case NoItems => Nil
    case Item(v, tail) => FollowedBy(Pieces(v), ItemPieces(tail))
  }

  function MemberPieces(members: Members): PieceList {
    match members
    case NoMembers => Nil
    case Member(key, v, tail) => FollowedBy(Append(KeyPieces(key), Pieces(v)), MemberPieces(tail))
  }

  function KeyPieces(key: string): PieceList {
    Cons(ScalarPiece(Str(key)), Cons(Sign(':'), Nil))
  }

  /** All its numbers are numbers. */
  predicate WellFormed(v: Json) {
    match v
    case Num(text) => JsonNumber.IsNumber(text)
    case Arr(items) => WellFormedItems(items)
    case Obj(members) => WellFormedMembers(members)
    case _ => true
  }

  predicate WellFormedItems(items: Items) {
    match items
    case NoItems => true
    case Item(v, tail) => WellFormed(v) && WellFormedItems(tail)
  }

  predicate WellFormedMembers(members: Members) {
    match members
    case NoMembers => true
    case Member(_, v, tail) => WellFormed(v) && WellFormedMembers(tail)
  }

  // ----- What the decoder delivers of the first n characters

  /** Of only a part of a piece. */
  function Partial(p: Piece, n: nat): Stream
    requires n < |PieceText(p)|
  {
    if p.Word? && p.token.Scalar? && p.token.v.Num? && JsonNumber.IsNumber(p.text[..n]) then [Scalar(Num(p.text[..n]))]
    else [Dangling]
  }

  /** A comma at the very end promises another token. */
  function Delivered(ps: PieceList, n: nat): Stream {
    if n == 0 || ps.Nil? then []
    else
      var size := |PieceText(ps.head)|;
      if n < size then Partial(ps.head, n)
      else if n == size then PieceTokens(ps.head) + if ps.head == Sign(',') then [Dangling] else []
      else PieceTokens(ps.head) + Delivered(ps.tail, n - size)
  }

  ghost predicate NoneEmpty(ps: PieceList) {
    ps.Cons? ==> PieceText(ps.head) != "" && NoneEmpty(ps.tail)
  }

  lemma Associative(a: Stream, b: Stream, c: Stream)
    ensures a + (b + c) == a + b + c
  {}

  lemma NothingAdded(a: Stream)
    ensures a + [] == a && [] + a == a
  {}

  lemma {:induction false} Concat(ps: PieceList, qs: PieceList)
    ensures Size(Append(ps, qs)) == Size(ps) + Size(qs)
    ensures AllTokens(Append(ps, qs)) == AllTokens(ps) + AllTokens(qs)
    ensures NoneEmpty(ps) && NoneEmpty(qs) ==> NoneEmpty(Append(ps, qs))
  {
    match ps {
      case Nil =>
        NothingAdded(AllTokens(qs));
      case Cons(p, rest) =>
        Concat(rest, qs);
        Associative(PieceTokens(p), AllTokens(rest), AllTokens(qs));
    }
  }

  /** Within its first pieces a text is delivered as if these were all. */
  lemma {:induction false} DeliveredWithin(ps: PieceList, qs: PieceList, n: nat)
    requires NoneEmpty(ps) && n <= Size(ps)
    ensures Delivered(Append(ps, qs), n) == Delivered(ps, n)
  {
    if n > 0 {
      var size := |PieceText(ps.head)|;
      if n > size {
        DeliveredWithin(ps.tail, qs, n - size);
      }
    }
  }

  /** Beyond them they are delivered whole. */
  lemma {:induction false} DeliveredBeyond(ps: PieceList, qs: PieceList, n: nat)
    requires n > Size(ps)
    ensures Delivered(Append(ps, qs), n) == AllTokens(ps) + Delivered(qs, n - Size(ps))
  {
    hide PieceText, PieceTokens, Partial;
    match ps {
      case Nil =>
        NothingAdded(Delivered(qs, n));
      case Cons(p, rest) =>
        DeliveredBeyond(rest, qs, n - |PieceText(p)|);
        Associative(PieceTokens(p), AllTokens(rest), Delivered(qs, n - Size(ps)));
    }
  }

  /** The pieces stand for these tokens, and are delivered as these. */
  ghost predicate Spells(ps: PieceList, ts: Stream) {
    NoneEmpty(ps) && AllTokens(ps) == ts && Delivered(ps, Size(ps)) == ts
  }

  lemma CommaFirst(qs: PieceList, n: nat)
    requires n > 0
    ensures Delivered(Cons(Sign(','), qs), n) == if n == 1 then [Dangling] else Delivered(qs, n - 1)
    ensures Size(Cons(Sign(','), qs)) == 1 + Size(qs) && AllTokens(Cons(Sign(','), qs)) == AllTokens(qs)
  {
    NothingAdded(Delivered(qs, n - 1));
    NothingAdded(AllTokens(qs));
    NothingAdded([Dangling]);
  }

  /** Cutting a list: within its first element, right after the comma that follows it, or within the rest. */
  lemma CutList(ps: PieceList, qs: PieceList, n: nat)
    requires NoneEmpty(ps) && n <= Size(FollowedBy(ps, qs))
    ensures Size(FollowedBy(ps, qs)) == Size(ps) + if qs.Nil? then 0 else 1 + Size(qs)
    ensures AllTokens(FollowedBy(ps, qs)) == AllTokens(ps) + AllTokens(qs)
    ensures Delivered(FollowedBy(ps, qs), n) ==
      if n <= Size(ps) then Delivered(ps, n)
      else AllTokens(ps) + if n == Size(ps) + 1 then [Dangling] else Delivered(qs, n - Size(ps) - 1)
  {
    if qs.Nil? {
      NothingAdded(AllTokens(ps));
    } else {
      CommaFirst(qs, if n > Size(ps) then n - Size(ps) else 1);
      Concat(ps, Cons(Sign(','), qs));
      if n <= Size(ps) {
        DeliveredWithin(ps, Cons(Sign(','), qs), n);
      } else {
        DeliveredBeyond(ps, Cons(Sign(','), qs), n);
      }
    }
  }

  lemma NotEmpty(ps: PieceList)
    requires NoneEmpty(ps) && ps.Cons?
    ensures Size(ps) > 0
  {}

  lemma SpellsList(ps: PieceList, a: Stream, qs: PieceList, b: Stream)
    requires Spells(ps, a) && Spells(qs, b)
    ensures Spells(FollowedBy(ps, qs), a + b)
  {
    var all := FollowedBy(ps, qs);
    CutList(ps, qs, 0);
    CutList(ps, qs, Size(all));
    assert NoneEmpty(all) && Delivered(all, Size(all)) == a + b by {
      if qs.Nil? {
        NothingAdded(a);
      } else {
        NotEmpty(qs);
        Concat(ps, Cons(Sign(','), qs));
      }
    }
  }

  lemma OpenFirst(open: char, rest: PieceList, n: nat)
    requires n > 0
    ensures Delivered(Cons(Bracket(open), rest), n) == [Delim(open)] + Delivered(rest, n - 1)
    ensures Size(Cons(Bracket(open), rest)) == 1 + Size(rest)
    ensures AllTokens(Cons(Bracket(open), rest)) == [Delim(open)] + AllTokens(rest)
  {
    NothingAdded([Delim(open)]);
  }

  /** A closing bracket. */
  function Closing(close: char): PieceList {
    Cons(Bracket(close), Nil)
  }

  lemma CloseOnly(close: char, n: nat)
    requires n <= 1
    ensures Delivered(Closing(close), n) == if n == 0 then [] else [Delim(close)]
    ensures Size(Closing(close)) == 1 && AllTokens(Closing(close)) == [Delim(close)] && NoneEmpty(Closing(close))
  {
    NothingAdded([Delim(close)]);
  }

  /** Cutting an array or object: before it, after its opening bracket and some of what is inside, or not at all. */
  lemma CutEnclosed(open: char, inner: PieceList, ts: Stream, close: char, n: nat)
    requires Spells(inner, ts) && n <= Size(Enclosed(open, inner, close))
    ensures Size(Enclosed(open, inner, close)) == Size(inner) + 2
    ensures Delivered(Enclosed(open, inner, close), n) ==
      if n == 0 then []
      else [Delim(open)] + if n == Size(inner) + 2 then ts + [Delim(close)] else Delivered(inner, n - 1)
  {
    var last := Closing(close);
    Concat(inner, last);
    CloseOnly(close, 1);
    OpenFirst(open, Append(inner, last), if n > 0 then n else 1);
    assert Size(Enclosed(open, inner, close)) == Size(inner) + 2;
    if n == Size(inner) + 2 {
      DeliveredBeyond(inner, last, n - 1);
    } else if n > 0 {
      DeliveredWithin(inner, last, n - 1);
    }
  }

  lemma SpellsEnclosed(open: char, inner: PieceList, ts: Stream, close: char)
    requires Spells(inner, ts)
    ensures Spells(Enclosed(open, inner, close), [Delim(open)] + (ts + [Delim(close)]))
  {
    var last := Closing(close);
    CutEnclosed(open, inner, ts, close, Size(Enclosed(open, inner, close)));
    Concat(inner, last);
    CloseOnly(close, 1);
    OpenFirst(open, Append(inner, last), 1);
  }

  // ----- The text of a value

  lemma ScalarPieces(v: Json)
    requires WellFormed(v) && !v.Arr? && !v.Obj?
    ensures ScalarText(v) != "" && Size(Pieces(v)) == |ScalarText(v)| && Spells(Pieces(v), Tokens(v))
  {
    if v.Num? {
      JsonNumber.NumberNotEmpty(v.text);
    }
    NothingAdded([Scalar(v)]);
  }

  /** The text of a value is delivered as its tokens. */
  lemma {:induction false} ValueSpelled(v: Json)
    requires WellFormed(v)
    ensures Spells(Pieces(v), Tokens(v))
    decreases v, 1
  {
    match v {
      case Arr(items) =>
        ItemsSpelled(items);
        SpellsEnclosed('[', ItemPieces(items), ItemTokens(items), ']');
        Associative([Delim('[')], ItemTokens(items), [Delim(']')]);
      case Obj(members) =>
        MembersSpelled(members);
        SpellsEnclosed('{', MemberPieces(members), MemberTokens(members), '}');
        Associative([Delim('{')], MemberTokens(members), [Delim('}')]);
      case _ =>
        ScalarPieces(v);
    }
  }

  lemma {:induction false} ItemsSpelled(items: Items)
    requires WellFormedItems(items)
    ensures Spells(ItemPieces(items), ItemTokens(items))
    decreases items, 0
  {
    match items {
      case NoItems =>
      case Item(v, tail) =>
        ValueSpelled(v);
        ItemsSpelled(tail);
        SpellsList(Pieces(v), Tokens(v), ItemPieces(tail), ItemTokens(tail));
    }
  }

  lemma {:induction false} MembersSpelled(members: Members)
    requires WellFormedMembers(members)
    ensures Spells(MemberPieces(members), MemberTokens(members))
    decreases members, 0
  {
    match members {
      case NoMembers =>
      case Member(key, v, tail) =>
        ValueSpelled(v);
        ValueNotEmpty(v);
        MembersSpelled(tail);
        MemberSpelled(key, Pieces(v), Tokens(v));
        SpellsList(Append(KeyPieces(key), Pieces(v)), [Scalar(Str(key))] + Tokens(v),
                   MemberPieces(tail), MemberTokens(tail));
    }
  }

  lemma KeyOnly(key: string, n: nat)
    requires n <= Size(KeyPieces(key))
    ensures Size(KeyPieces(key)) == |ScalarText(Str(key))| + 1 && AllTokens(KeyPieces(key)) == [Scalar(Str(key))]
    ensures NoneEmpty(KeyPieces(key))
    ensures Delivered(KeyPieces(key), n) ==
      if n == 0 then [] else if n < |ScalarText(Str(key))| then [Dangling] else [Scalar(Str(key))]
  {
    assert PieceText(Sign(':')) == ":";
    NothingAdded([Scalar(Str(key))]);
  }

  lemma CutKey(key: string, ps: PieceList, n: nat)
    requires n <= Size(KeyPieces(key))
    ensures Delivered(Append(KeyPieces(key), ps), n) ==
      if n == 0 then [] else if n < |ScalarText(Str(key))| then [Dangling] else [Scalar(Str(key))]
  {
    KeyOnly(key, n);
    DeliveredWithin(KeyPieces(key), ps, n);
  }

  /** Cutting a key and its value within the value. */
  lemma CutAfterKey(key: string, ps: PieceList, n: nat)
    requires n > Size(KeyPieces(key))
    ensures Delivered(Append(KeyPieces(key), ps), n) == [Scalar(Str(key))] + Delivered(ps, n - Size(KeyPieces(key)))
  {
    KeyOnly(key, 0);
    DeliveredBeyond(KeyPieces(key), ps, n);
  }

  lemma MemberSpelled(key: string, ps: PieceList, ts: Stream)
    requires Spells(ps, ts) && ps.Cons?
    ensures Spells(Append(KeyPieces(key), ps), [Scalar(Str(key))] + ts)
    ensures Size(Append(KeyPieces(key), ps)) == Size(KeyPieces(key)) + Size(ps)
  {
    KeyOnly(key, 0);
    Concat(KeyPieces(key), ps);
    NotEmpty(ps);
    CutAfterKey(key, ps, Size(KeyPieces(key)) + Size(ps));
  }

  lemma ValueNotEmpty(v: Json)
    ensures Pieces(v).Cons?
  {}

  // ----- A value that is cut off

  lemma WholeIsUnclosed(v: Json, depth: nat)
    requires depth > 0
    ensures Skip(Tokens(v), depth).Err?
  {
    SkipValue(v, [], depth);
    NothingAdded(Tokens(v));
  }

  lemma SkipOpen(open: char, rest: Stream, depth: nat)
    requires depth > 0 && (open == '[' || open == '{')
    ensures Skip([Delim(open)] + rest, depth) == Skip(rest, depth + 1)
  {
    assert ([Delim(open)] + rest)[1..] == rest;
  }

  lemma SkipScalar(v: Json, rest: Stream, depth: nat)
    requires depth > 0
    ensures Skip([Scalar(v)] + rest, depth) == Skip(rest, depth)
  {
    assert ([Scalar(v)] + rest)[1..] == rest;
  }

  lemma EnclosedUnclosed(open: char, inner: PieceList, ts: Stream, close: char, n: nat, depth: nat)
    requires Spells(inner, ts) && n < Size(Enclosed(open, inner, close)) && depth > 0 && (open == '[' || open == '{')
    requires n > 0 ==> Skip(Delivered(inner, n - 1), depth + 1).Err?
    ensures Skip(Delivered(Enclosed(open, inner, close), n), depth).Err?
  {
    CutEnclosed(open, inner, ts, close, n);
    if n > 0 {
      SkipOpen(open, Delivered(inner, n - 1), depth);
    }
  }

  /** What the decoder makes of the first n characters of a value cannot be skipped to the end of what encloses it. */
  lemma {:induction false} CutIsUnclosed(v: Json, n: nat, depth: nat)
    requires WellFormed(v) && n <= Size(Pieces(v)) && depth > 0
    ensures Skip(Delivered(Pieces(v), n), depth).Err?
    decreases v, 1
  {
    if n == Size(Pieces(v)) {
      ValueSpelled(v);
      WholeIsUnclosed(v, depth);
    } else if v.Arr? {
      ItemsSpelled(v.items);
      EnclosedSize('[', ItemPieces(v.items), ']');
      if n > 0 {
        CutItemsUnclosed(v.items, n - 1, depth + 1);
      }
      EnclosedUnclosed('[', ItemPieces(v.items), ItemTokens(v.items), ']', n, depth);
    } else if v.Obj? {
      MembersSpelled(v.members);
      EnclosedSize('{', MemberPieces(v.members), '}');
      if n > 0 {
        CutMembersUnclosed(v.members, n - 1, depth + 1);
      }
      EnclosedUnclosed('{', MemberPieces(v.members), MemberTokens(v.members), '}', n, depth);
    } else {
      ScalarCut(v, n);
    }
  }

  lemma EnclosedSize(open: char, inner: PieceList, close: char)
    ensures Size(Enclosed(open, inner, close)) == Size(inner) + 2
  {
    Concat(inner, Closing(close));
    CloseOnly(close, 1);
    OpenFirst(open, Append(inner, Closing(close)), 1);
  }

  lemma {:induction false} CutItemsUnclosed(items: Items, n: nat, depth: nat)
    requires WellFormedItems(items) && n <= Size(ItemPieces(items)) && depth > 0
    ensures Skip(Delivered(ItemPieces(items), n), depth).Err?
    decreases items, 0
  {
    if items.Item? {
      var v, tail := items.head, items.tail;
      ValueSpelled(v);
      CutList(Pieces(v), ItemPieces(tail), n);
      var left := n - Size(Pieces(v)) - 1;
      if left < 0 {
        CutIsUnclosed(v, n, depth);
      } else {
        SkipValue(v, if left == 0 then [Dangling] else Delivered(ItemPieces(tail), left), depth);
        if left > 0 {
          CutItemsUnclosed(tail, left, depth);
        }
      }
    }
  }

  lemma {:induction false} CutMembersUnclosed(members: Members, n: nat, depth: nat)
    requires WellFormedMembers(members) && n <= Size(MemberPieces(members)) && depth > 0
    ensures Skip(Delivered(MemberPieces(members), n), depth).Err?
    decreases members, 0
  {
    if members.Member? {
      var key, v, tail := members.key, members.value, members.tail;
      var k := Size(KeyPieces(key));
      var left := n - k - Size(Pieces(v)) - 1;
      if left < 0 {
        WithinMember(members, n);
        CutMemberUnclosed(key, v, n, depth);
      } else {
        BeyondMember(members, n);
        SkipMember(key, v, if left == 0 then [Dangling] else Delivered(MemberPieces(tail), left), depth);
        if left > 0 {
          CutMembersUnclosed(tail, left, depth);
        }
      }
    }
  }

  lemma {:induction false} CutMemberUnclosed(key: string, v: Json, n: nat, depth: nat)
    requires WellFormed(v) && n <= Size(KeyPieces(key)) + Size(Pieces(v)) && depth > 0
    ensures Skip(Delivered(Append(KeyPieces(key), Pieces(v)), n), depth).Err?
    decreases v, 2
  {
    hide Pieces, KeyPieces, Append, Delivered, Skip, WellFormed;
    var k := Size(KeyPieces(key));
    if n <= k {
      KeyIsUnclosed(key, Pieces(v), n, depth);
    } else {
      CutAfterKey(key, Pieces(v), n);
      CutIsUnclosed(v, n - k, depth);
      SkipScalar(Str(key), Delivered(Pieces(v), n - k), depth);
    }
  }

  lemma KeyIsUnclosed(key: string, ps: PieceList, n: nat, depth: nat)
    requires n <= Size(KeyPieces(key)) && depth > 0
    ensures Skip(Delivered(Append(KeyPieces(key), ps), n), depth).Err?
  {
    CutKey(key, ps, n);
    SkipScalar(Str(key), [], depth);
    NothingAdded([Scalar(Str(key))]);
  }

  lemma SkipMember(key: string, v: Json, rest: Stream, depth: nat)
    requires depth > 0
    ensures Skip([Scalar(Str(key))] + Tokens(v) + rest, depth) == Skip(rest, depth)
  {
    Associative([Scalar(Str(key))], Tokens(v), rest);
    SkipScalar(Str(key), Tokens(v) + rest, depth);
    SkipValue(v, rest, depth);
  }

  /** The value is a number, and its first n characters are one too. */
  predicate ShortNumber(v: Json, n: nat) {
    v.Num? && n <= |v.text| && JsonNumber.IsNumber(v.text[..n])
  }

  lemma ScalarCut(v: Json, n: nat)
    requires WellFormed(v) && !v.Arr? && !v.Obj? && n < Size(Pieces(v))
    ensures Delivered(Pieces(v), n) ==
      if n == 0 then [] else if ShortNumber(v, n) then [Scalar(Num(v.text[..n]))] else [Dangling]
  {
    ScalarPieces(v);
  }

  lemma EnclosedIsError(key: string, open: char, inner: PieceList, ts: Stream, close: char, n: nat, cbs: Callbacks)
    requires Spells(inner, ts) && n < Size(Enclosed(open, inner, close)) && (open == '[' || open == '{')
    requires n > 0 ==> Skip(Delivered(inner, n - 1), 1).Err?
    ensures MemberProgress(key, Delivered(Enclosed(open, inner, close), n), cbs).end.Err?
  {
    CutEnclosed(open, inner, ts, close, n);
    if n > 0 {
      var rest := Delivered(inner, n - 1);
      assert ([Delim(open)] + rest)[1..] == rest;
      UnclosedIsError(key, [Delim(open)] + rest, cbs);
    }
  }

  lemma DanglingIsError(key: string, cbs: Callbacks)
    ensures MemberProgress(key, [], cbs).end.Err? && MemberProgress(key, [Dangling], cbs).end.Err?
  {}

  lemma CutScalar(key: string, v: Json, n: nat, cbs: Callbacks)
    requires WellFormed(v) && !v.Arr? && !v.Obj? && n < Size(Pieces(v))
    ensures ShortNumber(v, n) ==> n > 0 && Delivered(Pieces(v), n) == [Scalar(Num(v.text[..n]))]
    ensures !ShortNumber(v, n) ==> MemberProgress(key, Delivered(Pieces(v), n), cbs).end.Err?
  {
    ScalarCut(v, n);
    DanglingIsError(key, cbs);
    if ShortNumber(v, n) {
      JsonNumber.NumberNotEmpty(v.text[..n]);
    }
  }

  /** A value that is cut off is an error, whether it is decoded, streamed or skipped, unless it is a number that is
      cut to a shorter one: then it reads as that number. */
  lemma CutValue(key: string, v: Json, n: nat, cbs: Callbacks)
    requires WellFormed(v) && MemberReadable(key, v, cbs) && n < Size(Pieces(v))
    ensures ShortNumber(v, n) ==> n > 0 && Delivered(Pieces(v), n) == [Scalar(Num(v.text[..n]))]
    ensures !ShortNumber(v, n) ==> MemberProgress(key, Delivered(Pieces(v), n), cbs).end.Err?
  {
    if v.Arr? {
      ItemsSpelled(v.items);
      EnclosedSize('[', ItemPieces(v.items), ']');
      if n > 0 {
        CutItemsUnclosed(v.items, n - 1, 1);
      }
      EnclosedIsError(key, '[', ItemPieces(v.items), ItemTokens(v.items), ']', n, cbs);
    } else if v.Obj? {
      MembersSpelled(v.members);
      EnclosedSize('{', MemberPieces(v.members), '}');
      if n > 0 {
        CutMembersUnclosed(v.members, n - 1, 1);
      }
      EnclosedIsError(key, '{', MemberPieces(v.members), MemberTokens(v.members), '}', n, cbs);
    } else {
      CutScalar(key, v, n, cbs);
    }
  }

  // ----- A document that is cut off

  /** What the first n characters of a member pass for, if it is cut off. */
  function PassesWithin(key: string, v: Json, n: nat): Option<Members> {
    var k := Size(KeyPieces(key));
    if n > k && KindOf(key).None? && ShortNumber(v, n - k) then Some(Member(key, Num(v.text[..n - k]), NoMembers))
    else None
  }

  /** The members that the first n characters of the members' text pass for, if reading them goes unnoticed: those
      that are complete, before any comma after the last; or those before a number cut to a shorter one, and it. */
  function PassesFor(members: Members, n: nat): Option<Members> {
    if n == 0 || members.NoMembers? then Some(NoMembers)
    else
      var key, v := members.key, members.value;
      var size := Size(KeyPieces(key)) + Size(Pieces(v));
      if n < size then PassesWithin(key, v, n)
      else if n == size then Some(Member(key, v, NoMembers))
      else if n == size + 1 then None
      else
        match PassesFor(members.tail, n - size - 1)
        case None => None
        case Some(ms) => Some(Member(key, v, ms))
  }

  function ReportOf(members: Members, cbs: Callbacks, meta: Metadata): Report {
    Report(ExpectedCalls(members, cbs), MetadataOf(members, meta), None)
  }

  /** What is expected of a reading, from what the text passes for. */
  ghost predicate Reported(r: Report, passes: Option<Members>, cbs: Callbacks, meta: Metadata) {
    if passes.None? then r.error.Some? else r == ReportOf(passes.value, cbs, meta)
  }

  lemma ReportFirst(key: string, v: Json, ms: Members, cbs: Callbacks, meta: Metadata)
    ensures ReportOf(Member(key, v, ms), cbs, meta)
         == Prepend(MemberCalls(key, v, cbs), ReportOf(ms, cbs, MetadataWith(meta, key, v)))
  {}

  /** A key with the tokens of a value, and then nothing. */
  lemma LastMember(key: string, v: Json, cbs: Callbacks, meta: Metadata)
    requires MemberReadable(key, v, cbs)
    ensures var r := MembersReport([Scalar(Str(key))] + Tokens(v), cbs, meta);
      && r == ReportOf(Member(key, v, NoMembers), cbs, meta)
      && Reported(r, Some(Member(key, v, NoMembers)), cbs, meta)
  {
    OneMember(key, v, [], cbs, meta);
    NothingAdded([Scalar(Str(key))] + Tokens(v));
    ReportFirst(key, v, NoMembers, cbs, meta);
  }

  lemma BadValue(key: string, ts: Stream, cbs: Callbacks, meta: Metadata)
    requires MemberProgress(key, ts, cbs).end.Err?
    ensures MembersReport([Scalar(Str(key))] + ts, cbs, meta).error.Some?
  {
    assert ([Scalar(Str(key))] + ts)[1..] == ts;
  }

  lemma CutWithinKey(key: string, ps: PieceList, n: nat, cbs: Callbacks, meta: Metadata)
    requires 0 < n <= Size(KeyPieces(key))
    ensures Reported(MembersReport(Delivered(Append(KeyPieces(key), ps), n), cbs, meta), None, cbs, meta)
  {
    CutKey(key, ps, n);
    DanglingIsError(key, cbs);
    NothingAdded([Scalar(Str(key))]);
    BadValue(key, [], cbs, meta);
  }

  lemma CutWithinValue(key: string, v: Json, n: nat, cbs: Callbacks, meta: Metadata)
    requires WellFormed(v) && MemberReadable(key, v, cbs) && 0 < n < Size(Pieces(v))
    ensures Reported(MembersReport(Delivered(Append(KeyPieces(key), Pieces(v)), Size(KeyPieces(key)) + n), cbs, meta),
                     PassesWithin(key, v, Size(KeyPieces(key)) + n), cbs, meta)
  {
    hide MembersReport, MemberProgress, Delivered, Pieces, KeyPieces, ReportOf, WellFormed;
    CutAfterKey(key, Pieces(v), Size(KeyPieces(key)) + n);
    CutValue(key, v, n, cbs);
    if ShortNumber(v, n) {
      CutNumber(key, v, v.text[..n], cbs, meta);
    } else {
      BadValue(key, Delivered(Pieces(v), n), cbs, meta);
    }
  }

  /** A cut within a member's key or value. */
  lemma CutWithinMember(key: string, v: Json, n: nat, cbs: Callbacks, meta: Metadata)
    requires WellFormed(v) && MemberReadable(key, v, cbs)
    requires 0 < n < Size(KeyPieces(key)) + Size(Pieces(v))
    ensures Reported(MembersReport(Delivered(Append(KeyPieces(key), Pieces(v)), n), cbs, meta),
                     PassesWithin(key, v, n), cbs, meta)
  {
    hide Reported, MembersReport, Delivered, Pieces, KeyPieces, Append, Size, WellFormed, MemberReadable;
    var k := Size(KeyPieces(key));
    if n <= k {
      CutWithinKey(key, Pieces(v), n, cbs, meta);
    } else {
      CutWithinValue(key, v, n - k, cbs, meta);
    }
  }

  lemma CutNumber(key: string, v: Json, text: string, cbs: Callbacks, meta: Metadata)
    requires v.Num? && MemberReadable(key, v, cbs)
    ensures KindOf(key).None?
    ensures MembersReport([Scalar(Str(key))] + [Scalar(Num(text))], cbs, meta)
         == ReportOf(Member(key, Num(text), NoMembers), cbs, meta)
  {
    LastMember(key, Num(text), cbs, meta);
  }

  /** What follows a whole member. */
  lemma AfterMember(key: string, v: Json, rest: Stream, passes: Option<Members>, cbs: Callbacks, meta: Metadata)
    requires MemberReadable(key, v, cbs)
    requires Reported(MembersReport(rest, cbs, MetadataWith(meta, key, v)), passes, cbs, MetadataWith(meta, key, v))
    ensures Reported(MembersReport([Scalar(Str(key))] + Tokens(v) + rest, cbs, meta),
                     if passes.None? then None else Some(Member(key, v, passes.value)), cbs, meta)
  {
    OneMember(key, v, rest, cbs, meta);
    if passes.Some? {
      ReportFirst(key, v, passes.value, cbs, meta);
    }
  }

  lemma DanglingMember(cbs: Callbacks, meta: Metadata)
    ensures Reported(MembersReport([Dangling], cbs, meta), None, cbs, meta)
  {}

  /** The first n characters of the members, if they go beyond the first member. */
  lemma BeyondMember(members: Members, n: nat)
    requires WellFormedMembers(members) && members.Member?
    requires Size(KeyPieces(members.key)) + Size(Pieces(members.value)) <= n <= Size(MemberPieces(members))
    ensures var key, v, left := members.key, members.value,
                                n - Size(KeyPieces(members.key)) - Size(Pieces(members.value)) - 1;
      && left <= Size(MemberPieces(members.tail))
      && Delivered(MemberPieces(members), n) ==
           if left < 0 then [Scalar(Str(key))] + Tokens(v)
           else [Scalar(Str(key))] + Tokens(v)
                + if left == 0 then [Dangling] else Delivered(MemberPieces(members.tail), left)
  {
    hide Delivered, Size, AllTokens, Tokens, MemberTokens, Pieces, KeyPieces, Append, FollowedBy;
    var key, v := members.key, members.value;
    ValueSpelled(v);
    ValueNotEmpty(v);
    MemberSpelled(key, Pieces(v), Tokens(v));
    CutList(Append(KeyPieces(key), Pieces(v)), MemberPieces(members.tail), n);
  }

  lemma WithinMember(members: Members, n: nat)
    requires WellFormedMembers(members) && members.Member?
    requires n <= Size(KeyPieces(members.key)) + Size(Pieces(members.value)) && n <= Size(MemberPieces(members))
    ensures Delivered(MemberPieces(members), n) == Delivered(Append(KeyPieces(members.key), Pieces(members.value)), n)
  {
    var key, v := members.key, members.value;
    ValueSpelled(v);
    ValueNotEmpty(v);
    MemberSpelled(key, Pieces(v), Tokens(v));
    CutList(Append(KeyPieces(key), Pieces(v)), MemberPieces(members.tail), n);
  }

  lemma CutFirst(members: Members, n: nat, cbs: Callbacks, meta: Metadata)
    requires WellFormedMembers(members) && Readable(members, cbs) && members.Member?
    requires 0 < n <= Size(KeyPieces(members.key)) + Size(Pieces(members.value)) && n <= Size(MemberPieces(members))
    ensures Reported(MembersReport(Delivered(MemberPieces(members), n), cbs, meta), PassesFor(members, n), cbs, meta)
  {
    hide MembersReport, Reported;
    var key, v := members.key, members.value;
    if n < Size(KeyPieces(key)) + Size(Pieces(v)) {
      WithinMember(members, n);
      CutWithinMember(key, v, n, cbs, meta);
    } else {
      BeyondMember(members, n);
      LastMember(key, v, cbs, meta);
    }
  }

  lemma PassesForLater(members: Members, left: nat)
    requires members.Member?
    ensures PassesFor(members, Size(KeyPieces(members.key)) + Size(Pieces(members.value)) + 1 + left) ==
      if left == 0 || PassesFor(members.tail, left).None? then None
      else Some(Member(members.key, members.value, PassesFor(members.tail, left).value))
  {}

  lemma FirstReadable(members: Members, cbs: Callbacks)
    requires members.Member? && WellFormedMembers(members) && Readable(members, cbs)
    ensures MemberReadable(members.key, members.value, cbs)
    ensures WellFormedMembers(members.tail) && Readable(members.tail, cbs)
  {}

  lemma CutLater(members: Members, left: nat, cbs: Callbacks, meta: Metadata)
    requires WellFormedMembers(members) && Readable(members, cbs) && members.Member?
    requires Size(KeyPieces(members.key)) + Size(Pieces(members.value)) + 1 + left <= Size(MemberPieces(members))
    requires var meta' := MetadataWith(meta, members.key, members.value);
      left > 0 ==> Reported(MembersReport(Delivered(MemberPieces(members.tail), left), cbs, meta'),
                            PassesFor(members.tail, left), cbs, meta')
    ensures var n := Size(KeyPieces(members.key)) + Size(Pieces(members.value)) + 1 + left;
      Reported(MembersReport(Delivered(MemberPieces(members), n), cbs, meta), PassesFor(members, n), cbs, meta)
  {
    hide *;
    var key, v := members.key, members.value;
    BeyondMember(members, Size(KeyPieces(key)) + Size(Pieces(v)) + 1 + left);
    PassesForLater(members, left);
    FirstReadable(members, cbs);
    if left == 0 {
      DanglingMember(cbs, MetadataWith(meta, key, v));
      AfterMember(key, v, [Dangling], None, cbs, meta);
    } else {
      AfterMember(key, v, Delivered(MemberPieces(members.tail), left), PassesFor(members.tail, left), cbs, meta);
    }
  }

  lemma NothingOfMembers(members: Members, n: nat, cbs: Callbacks, meta: Metadata)
    requires n == 0 || members.NoMembers?
    ensures Reported(MembersReport(Delivered(MemberPieces(members), n), cbs, meta), PassesFor(members, n), cbs, meta)
  {
    assert Delivered(MemberPieces(members), n) == [];
  }

  lemma {:induction false} CutMembers(members: Members, n: nat, cbs: Callbacks, meta: Metadata)
    requires WellFormedMembers(members) && Readable(members, cbs) && n <= Size(MemberPieces(members))
    ensures Reported(MembersReport(Delivered(MemberPieces(members), n), cbs, meta), PassesFor(members, n), cbs, meta)
  {
    hide *;
    if n == 0 || members.NoMembers? {
      NothingOfMembers(members, n, cbs, meta);
    } else {
      var size := Size(KeyPieces(members.key)) + Size(Pieces(members.value));
      if n <= size {
        CutFirst(members, n, cbs, meta);
      } else {
        BeyondMember(members, n);
        FirstReadable(members, cbs);
        if n > size + 1 {
          CutMembers(members.tail, n - size - 1, cbs, MetadataWith(meta, members.key, members.value));
        }
        CutLater(members, n - size - 1, cbs, meta);
      }
    }
  }

  lemma CutObject(members: Members, n: nat)
    requires WellFormedMembers(members) && n < Size(Pieces(Obj(members)))
    ensures Size(Pieces(Obj(members))) == Size(MemberPieces(members)) + 2
    ensures Delivered(Pieces(Obj(members)), n) ==
      if n == 0 then [] else [Delim('{')] + Delivered(MemberPieces(members), n - 1)
  {
    MembersSpelled(members);
    CutEnclosed('{', MemberPieces(members), MemberTokens(members), '}', n);
  }

  lemma NothingDelivered(cbs: Callbacks)
    ensures Reported(DocumentReport([], cbs), None, cbs, NO_METADATA)
  {}

  lemma CutAfterBrace(members: Members, n: nat, cbs: Callbacks)
    requires WellFormedMembers(members) && Readable(members, cbs) && n <= Size(MemberPieces(members))
    ensures Reported(DocumentReport([Delim('{')] + Delivered(MemberPieces(members), n), cbs),
                     PassesFor(members, n), cbs, NO_METADATA)
  {
    hide DocumentReport, MembersReport, Reported;
    CutMembers(members, n, cbs, NO_METADATA);
    DocumentOf(Delivered(MemberPieces(members), n), cbs);
  }

  /** A document whose text is cut off after n characters is read without an error exactly if the cut falls after the
      opening brace, after a complete member and before the comma that follows it, or inside a number that is the
      value of a key of its own and leaves a number. Then it reads as if what is left were all. Any other cut is
      reported. */
  lemma CutDocument(members: Members, n: nat, cbs: Callbacks)
    requires WellFormedMembers(members) && Readable(members, cbs) && n < Size(Pieces(Obj(members)))
    ensures Reported(DocumentReport(Delivered(Pieces(Obj(members)), n), cbs),
                     if n == 0 then None else PassesFor(members, n - 1), cbs, NO_METADATA)
  {
    hide *;
    CutObject(members, n);
    if n == 0 {
      NothingDelivered(cbs);
    } else {
      CutAfterBrace(members, n - 1, cbs);
    }
  }

  /** The text of a document, uncut, is delivered as its tokens. */
  lemma WholeDocument(members: Members)
    requires WellFormedMembers(members)
    ensures Delivered(Pieces(Obj(members)), |Text(Pieces(Obj(members)))|) == Tokens(Obj(members))
  {
    SizeIsLength(Pieces(Obj(members)));
    ValueSpelled(Obj(members));
  }

  lemma OneMemberSize(key: string, v: Json)
    requires WellFormed(v)
    ensures var members := Member(key, v, NoMembers);
      && WellFormedMembers(members)
      && Size(Pieces(Obj(members))) == Size(KeyPieces(key)) + Size(Pieces(v)) + 2
  {
    ValueSpelled(v);
    ValueNotEmpty(v);
    MemberSpelled(key, Pieces(v), Tokens(v));
    assert MemberPieces(NoMembers).Nil?;
    var inner := MemberPieces(Member(key, v, NoMembers));
    assert inner == Append(KeyPieces(key), Pieces(v));
    EnclosedSize('{', inner, '}');
    assert Pieces(Obj(Member(key, v, NoMembers))) == Enclosed('{', inner, '}');
  }

  /** A recording whose last number is cut to a shorter one reads as that without an error. */
  lemma ShortenedDocument(key: string, text: string, n: nat, cbs: Callbacks)
    requires JsonNumber.IsNumber(text) && n < |text| && JsonNumber.IsNumber(text[..n]) && KindOf(key).None?
    ensures var members, cut := Member(key, Num(text), NoMembers), 1 + Size(KeyPieces(key)) + n;
      && cut < Size(Pieces(Obj(members)))
      && Reported(DocumentReport(Delivered(Pieces(Obj(members)), cut), cbs),
                  Some(Member(key, Num(text[..n]), NoMembers)), cbs, NO_METADATA)
  {
    hide DocumentReport, PassesFor, Reported;
    JsonNumber.NumberNotEmpty(text[..n]);
    ScalarPieces(Num(text));
    OneMemberSize(key, Num(text));
    PassesForShort(key, text, n);
    CutDocument(Member(key, Num(text), NoMembers), 1 + Size(KeyPieces(key)) + n, cbs);
  }

  lemma PassesForShort(key: string, text: string, n: nat)
    requires 0 < n < |text| && |text| == Size(Pieces(Num(text)))
    requires JsonNumber.IsNumber(text[..n]) && KindOf(key).None?
    ensures PassesFor(Member(key, Num(text), NoMembers), Size(KeyPieces(key)) + n)
         == Some(Member(key, Num(text[..n]), NoMembers))
  {}

  lemma EndFrameOf(key: string, text: string, frame: uint32, meta: Metadata)
    requires key == "endFrame" && JsonNumber.Value(text) == frame as real
    ensures KindOf(key).None?
    ensures MetadataOf(Member(key, Num(text), NoMembers), meta).endFrame == frame
  {
    var last := Member(key, Num(text), NoMembers);
    assert MetadataOf(last, meta) == MetadataOf(NoMembers, MetadataWith(meta, key, Num(text)));
    assert ToUint32(frame as real) == frame;
  }

  /** A recording that ends in its number of frames, cut off within that, reads as one of as many frames as are left
      of the number, without an error. */
  lemma ShortenedRecording(key: string, text: string, n: nat, frame: uint32, cbs: Callbacks)
    requires key == "endFrame" && JsonNumber.IsNumber(text) && n < |text|
    requires JsonNumber.IsNumber(text[..n]) && JsonNumber.Value(text[..n]) == frame as real
    ensures var members, cut := Member(key, Num(text), NoMembers), 1 + Size(KeyPieces(key)) + n;
      && cut < Size(Pieces(Obj(members)))
      && var r := DocumentReport(Delivered(Pieces(Obj(members)), cut), cbs);
         r.error.None? && r.meta.endFrame == frame
  {
    hide *;
    EndFrameOf(key, text[..n], frame, NO_METADATA);
    ShortenedDocument(key, text, n, cbs);
    var members, cut := Member(key, Num(text), NoMembers), 1 + Size(KeyPieces(key)) + n;
    var passes := Member(key, Num(text[..n]), NoMembers);
    PassingIsRead(DocumentReport(Delivered(Pieces(Obj(members)), cut), cbs), passes, cbs);
  }

  lemma PassingIsRead(r: Report, passes: Members, cbs: Callbacks)
    requires Reported(r, Some(passes), cbs, NO_METADATA)
    ensures r.error.None? && r.meta == MetadataOf(passes, NO_METADATA)
  {}

  /** 1500 frames become 15. */
  lemma FifteenFrames(key: string, text: string, cbs: Callbacks)
    requires key == "endFrame" && text == "1500"
    ensures var members, cut := Member(key, Num(text), NoMembers), 1 + Size(KeyPieces(key)) + 2;
      && cut < Size(Pieces(Obj(members)))
      && var r := DocumentReport(Delivered(Pieces(Obj(members)), cut), cbs);
         r.error.None? && r.meta.endFrame == 15
  {
    JsonNumber.FifteenHundred();
    assert text[..2] == "15";
    ShortenedRecording(key, text, 2, 15, cbs);
  }
}

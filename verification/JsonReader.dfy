/**
 * JSON values (RFC 8259): a reader of the whole notation the server uses, that knows nothing of who
 * wrote it, and the printer it inverts. There is no space between tokens.
 */
module JsonReader {
  import opened Decimals
  import opened JsonText
  import opened CStrings

  datatype Json =
    | Str(text: string)
    | Num(number: int)
    | Bool(truth: bool)
    | List(items: Items)
    | Object(members: Members)

  datatype Items = NoItems | Item(first: Json, rest: Items)

  datatype Members = NoMembers | Member(name: string, value: Json, more: Members)

  function Elements(items: Items): seq<Json> {
    if items.NoItems? then [] else [items.first] + Elements(items.rest)
  }

  // ---------------------------------------------------------------- reading

  predicate StartsDigit(s: string) { s != "" && '0' <= s[0] <= '9' }

  /** Goes on reading a number whose digits so far are worth `value`. */
  function ReadDigitsOn(s: string, value: nat): (r: Read<nat>)
    ensures r.Read? && |r.rest| <= |s|
  {
    if StartsDigit(s) then ReadDigitsOn(s[1..], 10 * value + (s[0] as int - '0' as int)) else Read(value, s)
  }

  /** A natural number without superfluous zeros. */
  function ReadNatural(s: string): (r: Read<nat>)
    ensures r.Read? ==> |r.rest| < |s|
  {
    if !StartsDigit(s) then Garbage
    else if s[0] == '0' then (if StartsDigit(s[1..]) then Garbage else Read(0, s[1..]))
    else ReadDigitsOn(s[1..], s[0] as int - '0' as int)
  }

  function ReadInteger(s: string): (r: Read<int>)
    ensures r.Read? ==> |r.rest| < |s|
  {
    if s != "" && s[0] == '-' then
      match ReadNatural(s[1..])
      case Garbage => Garbage
      case Read(n, rest) => Read(0 - n, rest)
    else
      match ReadNatural(s)
      case Garbage => Garbage
      case Read(n, rest) => Read(n, rest)
  }

  function ReadValue(s: string): (r: Read<Json>)
    ensures r.Read? ==> |r.rest| < |s|
    decreases |s|, 0
  {
    if s == "" then Garbage
    else if s[0] == '"' then
      match ReadString(s)
      case Garbage => Garbage
      case Read(text, rest) => Read(Str(text), rest)
    else if s[0] == '{' then
      if |s| >= 2 && s[1] == '}' then Read(Object(NoMembers), s[2..])
      else
        match ReadMembers(s[1..])
        case Garbage => Garbage
        case Read(members, rest) => Read(Object(members), rest)
    else if s[0] == '[' then
      if |s| >= 2 && s[1] == ']' then Read(List(NoItems), s[2..])
      else
        match ReadItems(s[1..])
        case Garbage => Garbage
        case Read(items, rest) => Read(List(items), rest)
    else if "true" <= s then Read(Bool(true), s[4..])
    else if "false" <= s then Read(Bool(false), s[5..])
    else
      match ReadInteger(s)
      case Garbage => Garbage
      case Read(n, rest) => Read(Num(n), rest)
  }

  /** Members, separated by commas, up to the closing brace. */
  function ReadMembers(s: string): (r: Read<Members>)
    ensures r.Read? ==> |r.rest| < |s|
    decreases |s|, 1
  {
    var name := ReadString(s);
    if name.Garbage? || name.rest == "" || name.rest[0] != ':' then Garbage else
    var value := ReadValue(name.rest[1..]);
    if value.Garbage? || value.rest == "" then Garbage
    else if value.rest[0] == '}' then Read(Member(name.value, value.value, NoMembers), value.rest[1..])
    else if value.rest[0] != ',' then Garbage
    else
      match ReadMembers(value.rest[1..])
      case Garbage => Garbage
      case Read(more, rest) => Read(Member(name.value, value.value, more), rest)
  }

  /** Items, separated by commas, up to the closing bracket. */
  function ReadItems(s: string): (r: Read<Items>)
    ensures r.Read? ==> |r.rest| < |s|
    decreases |s|, 1
  {
    var first := ReadValue(s);
    if first.Garbage? || first.rest == "" then Garbage
    else if first.rest[0] == ']' then Read(Item(first.value, NoItems), first.rest[1..])
    else if first.rest[0] != ',' then Garbage
    else
      match ReadItems(first.rest[1..])
      case Garbage => Garbage
      case Read(more, rest) => Read(Item(first.value, more), rest)
  }

  // ---------------------------------------------------------------- printing

  function Print(j: Json): string {
    match j
    case Str(text) => JsonString(text)
    case Num(n) => IntText(n)
    case Bool(b) => if b then "true" else "false"
    case List(items) => "[" + (PrintItems(items) + "]")
    case Object(members) => "{" + (PrintMembers(members) + "}")
  }

  function PrintItems(items: Items): string
    decreases items, 0
  {
    match items
    case NoItems => ""
    case Item(first, rest) => Print(first) + MoreItems(rest)
  }

  function MoreItems(items: Items): string
    decreases items, 1
  {
    if items.NoItems? then "" else "," + PrintItems(items)
  }

  function PrintMembers(members: Members): string
    decreases members, 0
  {
    match members
    case NoMembers => ""
    case Member(name, value, more) => JsonString(name) + (":" + (Print(value) + MoreMembers(more)))
  }

  function MoreMembers(members: Members): string
    decreases members, 1
  {
    if members.NoMembers? then "" else "," + PrintMembers(members)
  }

  // ---------------------------------------------------------------- reading what was printed

  function Scaled(value: nat, n: nat): nat {
    if n < 10 then 10 * value else 10 * Scaled(value, n / 10)
  }

  lemma {:induction false} ScaledZero(n: nat)
    ensures Scaled(0, n) == 0
  {
    if n >= 10 {
      ScaledZero(n / 10);
    }
  }

  /** Reading the digits of a number adds it, behind whatever was read before. */
  lemma {:induction false} ReadDigitsAt(n: nat, u: string, value: nat)
    ensures ReadDigitsOn(NatText(n) + u, value) == ReadDigitsOn(u, Scaled(value, n) + n)
  {
    var d := [Digit(n % 10)];
    if n < 10 {
      DigitAt(n, u, value);
    } else {
      ReadDigitsAt(n / 10, d + u, value);
      DigitAt(n % 10, u, Scaled(value, n / 10) + n / 10);
      assert NatText(n) + u == NatText(n / 10) + (d + u);
    }
  }

  lemma DigitAt(d: nat, u: string, value: nat)
    requires d < 10
    ensures ReadDigitsOn([Digit(d)] + u, value) == ReadDigitsOn(u, 10 * value + d)
  {
    assert ([Digit(d)] + u)[1..] == u;
  }

  lemma {:induction false} FirstDigit(n: nat)
    ensures NatText(n) != "" && '0' <= NatText(n)[0] <= '9'
    ensures NatText(n)[0] == '0' <==> n == 0
    ensures n == 0 ==> NatText(n) == "0"
  {
    if n >= 10 {
      FirstDigit(n / 10);
    }
  }

  lemma ReadNaturalAt(n: nat, tail: string)
    requires !StartsDigit(tail)
    ensures ReadNatural(NatText(n) + tail) == Read(n, tail)
  {
    FirstDigit(n);
    ReadDigitsAt(n, tail, 0);
    ScaledZero(n);
    var s := NatText(n) + tail;
    assert s[0] == NatText(n)[0];
    if n == 0 {
      assert s[1..] == tail;
    }
  }

  /** A number printed in decimal is read back. */
  lemma ReadIntegerAt(n: int, tail: string)
    requires !StartsDigit(tail)
    ensures ReadInteger(IntText(n) + tail) == Read(n, tail)
    ensures IntText(n) != "" && (IntText(n)[0] == '-' || '0' <= IntText(n)[0] <= '9')
  {
    ReadNaturalAt(if n < 0 then -n else n, tail);
    FirstDigit(if n < 0 then -n else n);
    if n < 0 {
      assert (IntText(n) + tail)[1..] == NatText(-n) + tail;
    } else {
      assert (IntText(n) + tail)[0] == NatText(n)[0];
    }
  }

  predicate Ends(tail: string) { tail == "" || tail[0] == ',' || tail[0] == '}' || tail[0] == ']' }

  /** Every printed value is read back, whatever closes or continues what it is part of. */
  lemma {:induction false} ReadValueAt(j: Json, tail: string)
    requires Ends(tail)
    ensures ReadValue(Print(j) + tail) == Read(j, tail)
    ensures Print(j) != "" && Print(j)[0] != '}' && Print(j)[0] != ']'
    decreases j, 0
  {
    var s := Print(j) + tail;
    match j
    case Str(text) =>
      ReadStringAt(text, tail);
      assert s[0] == '"';
    case Num(n) =>
      ReadIntegerAt(n, tail);
      assert s[0] == IntText(n)[0];
    case Bool(b) =>
      BoolAt(b, tail);
    case List(items) =>
      ListAt(items, tail);
    case Object(members) =>
      ObjectAt(members, tail);
  }

  lemma BoolAt(b: bool, tail: string)
    ensures ReadValue(Print(Bool(b)) + tail) == Read(Bool(b), tail)
  {
    var s := Print(Bool(b)) + tail;
    if b {
      assert s[4..] == tail && "true" <= s;
    } else {
      assert s[0] == 'f' && s[5..] == tail && "false" <= s;
    }
  }

  lemma {:induction false} ListAt(items: Items, tail: string)
    requires Ends(tail)
    ensures ReadValue(Print(List(items)) + tail) == Read(List(items), tail)
    decreases items, 2
  {
    var u := PrintItems(items) + ("]" + tail);
    var s := Print(List(items)) + tail;
    assert s[0] == '[' && s[1..] == u;
    if items.NoItems? {
      assert s[1] == ']' && s[2..] == tail;
    } else {
      ReadItemsAt(items, tail);
      assert s[1] == u[0];
    }
  }

  lemma {:induction false} ReadItemsAt(items: Items, tail: string)
    requires items.Item?
    ensures ReadItems(PrintItems(items) + ("]" + tail)) == Read(items, tail)
    ensures (PrintItems(items) + ("]" + tail))[0] != ']'
    decreases items, 1
  {
    var u := MoreItems(items.rest) + ("]" + tail);
    Assoc(Print(items.first), MoreItems(items.rest), "]" + tail);
    if items.rest.NoItems? {
      assert u == "]" + tail;
      ReadValueAt(items.first, u);
      assert u[1..] == tail;
    } else {
      var v := PrintItems(items.rest) + ("]" + tail);
      Assoc(",", PrintItems(items.rest), "]" + tail);
      assert u == "," + v;
      ReadValueAt(items.first, u);
      ReadItemsAt(items.rest, tail);
      assert u[1..] == v;
    }
  }

  lemma {:induction false} ObjectAt(members: Members, tail: string)
    requires Ends(tail)
    ensures ReadValue(Print(Object(members)) + tail) == Read(Object(members), tail)
    decreases members, 2
  {
    var u := PrintMembers(members) + ("}" + tail);
    var s := Print(Object(members)) + tail;
    assert s[0] == '{' && s[1..] == u;
    if members.NoMembers? {
      assert s[1] == '}' && s[2..] == tail;
    } else {
      ReadMembersAt(members, tail);
      assert s[1] == u[0];
    }
  }

  lemma {:induction false} ReadMembersAt(members: Members, tail: string)
    requires members.Member?
    ensures ReadMembers(PrintMembers(members) + ("}" + tail)) == Read(members, tail)
    ensures (PrintMembers(members) + ("}" + tail))[0] == '"'
    decreases members, 1
  {
    var u := MoreMembers(members.more) + ("}" + tail);
    MemberSplit(members, tail);
    ReadStringAt(members.name, ":" + (Print(members.value) + u));
    assert (":" + (Print(members.value) + u))[1..] == Print(members.value) + u;
    if members.more.NoMembers? {
      assert u == "}" + tail;
      ReadValueAt(members.value, u);
      assert u[1..] == tail;
    } else {
      var v := PrintMembers(members.more) + ("}" + tail);
      Assoc(",", PrintMembers(members.more), "}" + tail);
      assert u == "," + v;
      ReadValueAt(members.value, u);
      ReadMembersAt(members.more, tail);
      assert u[1..] == v;
    }
  }

  lemma MemberSplit(members: Members, tail: string)
    requires members.Member?
    ensures PrintMembers(members) + ("}" + tail) ==
      JsonString(members.name) + (":" + (Print(members.value) + (MoreMembers(members.more) + ("}" + tail))))
  {
    var rest := "}" + tail;
    Assoc(JsonString(members.name), ":" + (Print(members.value) + MoreMembers(members.more)), rest);
    Assoc(":", Print(members.value) + MoreMembers(members.more), rest);
    Assoc(Print(members.value), MoreMembers(members.more), rest);
  }
}

/**
 Messages as the components exchange them: text with comma-separated prefixes, cut at 1023
 characters by every formatting step. Strings here are C strings without their terminator.
 */
module Wire {
  import opened List

  const MAX_TEXT := 1023

  /** What snprintf into a 1024-byte buffer keeps. */
  function Cut(s: string): (r: string)
    ensures r <= s && (|s| <= MAX_TEXT ==> r == s) && |r| == if |s| < 1023 then |s| else 1023
  {
    if |s| <= MAX_TEXT then s else s[..MAX_TEXT]
  }

  // ---------------------------------------------------------------- decimal ranks

  function Digit(d: nat): char
    requires d < 10
  {
    '0' + d as char
  }

  predicate IsDigit(c: char) {
    '0' <= c <= '9'
  }

  function Decimal(n: nat): (s: string)
    ensures |s| > 0 && forall i :: 0 <= i < |s| ==> IsDigit(s[i])
  {
    if n < 10 then [Digit(n)] else Decimal(n / 10) + [Digit(n % 10)]
  }

  /** The value of a string of digits. */
  function Value(s: string): nat
    requires forall i :: 0 <= i < |s| ==> IsDigit(s[i])
  {
    if |s| == 0 then 0
    else
      assert IsDigit(s[|s| - 1]);
      10 * Value(s[..|s| - 1]) + (s[|s| - 1] as int - '0' as int)
  }

  /** The digits a number starts with, as atoi reads them. */
  function LeadingDigits(s: string): (r: string)
    ensures r <= s && forall i :: 0 <= i < |r| ==> IsDigit(r[i])
    ensures |r| < |s| ==> !IsDigit(s[|r|])
  {
    if |s| == 0 || !IsDigit(s[0]) then "" else [s[0]] + LeadingDigits(s[1..])
  }

  function Atoi(s: string): int {
    if |s| > 0 && s[0] == '-' then 0 - Value(LeadingDigits(s[1..])) as int else Value(LeadingDigits(s))
  }

  lemma {:induction false} DecimalValue(n: nat)
    ensures Value(Decimal(n)) == n
  {
    if n >= 10 {
      DecimalValue(n / 10);
      var s := Decimal(n);
      assert s[..|s| - 1] == Decimal(n / 10);
    }
  }

  lemma DecimalInjective(m: nat, n: nat)
    requires Decimal(m) == Decimal(n)
    ensures m == n
  {
    DecimalValue(m);
    DecimalValue(n);
  }

  /** Digits count in powers of ten, the last one by its distance from '0'. */
  lemma ValueSnoc(s: string, c: char)
    requires (forall i :: 0 <= i < |s| ==> '0' <= s[i] <= '9') && '0' <= c <= '9'
    ensures Value("") == 0 && Value(s + [c]) == 10 * Value(s) + (c as int - '0' as int)
  {
    assert (s + [c])[..|s|] == s;
  }

  lemma {:induction false} ValuePositive(s: string)
    requires |s| > 0 && s[0] != '0' && forall i :: 0 <= i < |s| ==> IsDigit(s[i])
    ensures Value(s) > 0
  {
    if |s| > 1 {
      ValuePositive(s[..|s| - 1]);
    }
  }

  /** A number without leading zeros is written exactly as it was read. */
  lemma {:induction false} DecimalCanonical(s: string)
    requires |s| > 0 && (s[0] != '0' || |s| == 1) && forall i :: 0 <= i < |s| ==> '0' <= s[i] <= '9'
    ensures Decimal(Value(s)) == s
  {
    var init, last := s[..|s| - 1], s[|s| - 1];
    var n := Value(init);
    assert Value(s) == 10 * n + (last as int - '0' as int);
    DecimalSnoc(n, last);
    if |s| > 1 {
      ValuePositive(init);
      assert Decimal(n) == init by {
        DecimalCanonical(init);
      }
    } else {
      assert init == "" && n == 0;
    }
    assert s == init + [last];
  }

  lemma DecimalSnoc(n: nat, c: char)
    requires '0' <= c <= '9'
    ensures Decimal(10 * n + (c as int - '0' as int)) == if n == 0 then [c] else Decimal(n) + [c]
  {
    var d := c as int - '0' as int;
    assert (10 * n + d) / 10 == n && (10 * n + d) % 10 == d;
  }

  lemma {:induction false} DigitsLead(s: string, rest: string)
    requires forall i :: 0 <= i < |s| ==> IsDigit(s[i])
    requires |rest| > 0 ==> !IsDigit(rest[0])
    ensures LeadingDigits(s + rest) == s
  {
    if |s| == 0 {
      assert s + rest == rest;
    } else {
      DigitsLead(s[1..], rest);
      assert (s + rest)[1..] == s[1..] + rest;
    }
  }

  /** Reading a number back, up to the first character that is no digit. */
  lemma AtoiStops(n: nat, rest: string)
    requires |rest| > 0 ==> rest[0] < '0' || rest[0] > '9'
    ensures Atoi(Decimal(n) + rest) == n
  {
    DecimalValue(n);
    DigitsLead(Decimal(n), rest);
    assert (Decimal(n) + rest)[0] == Decimal(n)[0];
  }

  lemma AtoiDecimal(n: nat)
    ensures Atoi(Decimal(n)) == n
  {
    AtoiStops(n, "");
    assert Decimal(n) + "" == Decimal(n);
  }

  lemma AtoiNegative(n: nat, rest: string)
    requires |rest| > 0 ==> rest[0] < '0' || rest[0] > '9'
    ensures Atoi("-" + (Decimal(n) + rest)) == 0 - n as int
  {
    var s := "-" + (Decimal(n) + rest);
    assert s[1..] == Decimal(n) + rest;
    DecimalValue(n);
    DigitsLead(Decimal(n), rest);
  }

  lemma DecimalHasNoComma(n: nat)
    ensures ',' !in Decimal(n)
  {
  }

  // ---------------------------------------------------------------- headers and fields

  /** `msg` carries the two-letter code if it starts with it; the body follows one separator. */
  function Body(msg: string, header: string): string
    requires header <= msg
  {
    if |msg| == |header| then "" else msg[|header| + 1..]
  }

  /** Whatever the one character behind the code is. */
  lemma BodyBehindCode(code: string, c: char, rest: string)
    ensures Body(code + [c] + rest, code) == rest && Body(code, code) == ""
  {
    assert (code + [c] + rest)[|code| + 1..] == rest;
  }

  /** A zero byte read at the end of the message differs from every header character. */
  method TryParseMessage(msg: string, header: string) returns (body: Option<string>)
    ensures body == if header <= msg then Some(Body(msg, header)) else None
  {
    var i := 0;
    while i < |header|
      invariant 0 <= i <= |header| && i <= |msg| && msg[..i] == header[..i]
    {
      if i == |msg| || msg[i] != header[i] {
        return None;
      }
      i := i + 1;
    }
    return Some(Body(msg, header));
  }

  function Join(fields: seq<string>): string
    requires |fields| > 0
  {
    if |fields| == 1 then fields[0] else fields[0] + "," + Join(fields[1..])
  }

  /** All fields but the last are free of the separator. */
  ghost predicate Separable(fields: seq<string>) {
    forall i :: 0 <= i < |fields| - 1 ==> ',' !in fields[i]
  }

  function Commas(s: string): nat {
    if |s| == 0 then 0 else (if s[0] == ',' then 1 else 0) + Commas(s[1..])
  }

  /** strchr: the first separator at or after `from`. */
  method FindComma(msg: string, from: nat) returns (r: Option<nat>)
    requires from <= |msg|
    ensures r.None? ==> ',' !in msg[from..]
    ensures r.Some? ==> from <= r.value < |msg| && msg[r.value] == ',' && ',' !in msg[from..r.value]
  {
    var i := from;
    while i < |msg|
      invariant from <= i <= |msg| && ',' !in msg[from..i]
    {
      if msg[i] == ',' {
        return Some(i);
      }
      i := i + 1;
    }
    return None;
  }

  /**
   Splits off all fields but the last at separators; the last keeps the rest, separators included.
   Fails exactly when there are too few separators.
   */
  method ParseMessage(msg: string, expected: nat) returns (r: Option<seq<string>>)
    requires expected > 0
    ensures r.Some? <==> Commas(msg) >= expected - 1
    ensures r.Some? ==> |r.value| == expected && Separable(r.value) && Join(r.value) == msg
  {
    var fields: seq<string>, ptr: nat := [], 0;
    for i := 0 to expected - 1
      invariant |fields| == i && ptr <= |msg|
      invariant forall j :: 0 <= j < i ==> ',' !in fields[j]
      invariant Join(fields + [msg[ptr..]]) == msg
      invariant Commas(msg) == i + Commas(msg[ptr..])
    {
      var delim := FindComma(msg, ptr);
      if delim.None? {
        NoCommas(msg[ptr..]);
        return None;
      }
      var field := msg[ptr..delim.value];
      assert msg[ptr..] == field + "," + msg[delim.value + 1..];
      JoinSplit(fields, field, msg[delim.value + 1..]);
      CommasBehind(field, msg[delim.value + 1..]);
      fields := fields + [field];
      ptr := delim.value + 1;
    }
    return Some(fields + [msg[ptr..]]);
  }

  lemma {:induction false} NoCommas(s: string)
    requires ',' !in s
    ensures Commas(s) == 0
  {
    if |s| > 0 {
      NoCommas(s[1..]);
    }
  }

  lemma {:induction false} CommasBehind(head: string, tail: string)
    requires ',' !in head
    ensures Commas(head + "," + tail) == 1 + Commas(tail)
  {
    var s := head + "," + tail;
    if |head| == 0 {
      assert s[1..] == tail;
    } else {
      CommasBehind(head[1..], tail);
      assert s[1..] == head[1..] + "," + tail;
    }
  }

  lemma {:induction false} JoinSplit(fields: seq<string>, head: string, tail: string)
    ensures Join(fields + [head + "," + tail]) == Join(fields + [head] + [tail])
  {
    if |fields| == 0 {
      assert (fields + [head] + [tail])[1..] == [tail];
    } else {
      JoinSplit(fields[1..], head, tail);
      assert (fields + [head + "," + tail])[1..] == fields[1..] + [head + "," + tail];
      assert (fields + [head] + [tail])[1..] == fields[1..] + [head] + [tail];
    }
  }

  lemma HeadUnique(a: string, b: string, x: string, y: string)
    requires ',' !in a && ',' !in b && a + "," + x == b + "," + y
    ensures a == b && x == y
  {
    UnframeSplit(a, x);
    UnframeSplit(b, y);
  }

  /** There is one way to read a message as that many fields, so parsing inverts formatting. */
  lemma {:induction false} SplitUnique(a: seq<string>, b: seq<string>)
    requires |a| == |b| > 0 && Separable(a) && Separable(b) && Join(a) == Join(b)
    ensures a == b
  {
    if |a| > 1 {
      HeadUnique(a[0], b[0], Join(a[1..]), Join(b[1..]));
      assert forall i :: 0 <= i < |a| - 2 ==> a[1..][i] == a[i + 1] && b[1..][i] == b[i + 1];
      SplitUnique(a[1..], b[1..]);
      assert a == [a[0]] + a[1..] && b == [b[0]] + b[1..];
    }
  }

  // ---------------------------------------------------------------- the framing of the link layers

  function Frame(prefix: string, msg: string): string {
    Cut(prefix + "," + msg)
  }

  /** Looking for the code of a framed message gives back the body. */
  lemma FrameBody(code: string, body: string)
    requires |code| + 1 + |body| <= MAX_TEXT
    ensures code <= Frame(code, body) && Body(Frame(code, body), code) == body
  {
    assert (code + "," + body)[|code| + 1..] == body;
  }

  /** The text before and behind the first separator; without one the whole text is prefix. */
  function Unframe(s: string): (r: (string, string)) {
    if |s| == 0 then ("", "")
    else if s[0] == ',' then ("", s[1..])
    else
      var (prefix, msg) := Unframe(s[1..]);
      ([s[0]] + prefix, msg)
  }

  lemma {:induction false} UnframeSplit(prefix: string, msg: string)
    requires ',' !in prefix
    ensures Unframe(prefix + "," + msg) == (prefix, msg)
  {
    var s := prefix + "," + msg;
    if |prefix| == 0 {
      assert s[1..] == msg;
    } else {
      UnframeSplit(prefix[1..], msg);
      assert s[1..] == prefix[1..] + "," + msg;
      assert prefix == [s[0]] + prefix[1..];
    }
  }

  lemma FrameUnframe(prefix: string, msg: string)
    requires ',' !in prefix && |prefix| + 1 + |msg| <= MAX_TEXT
    ensures Unframe(Frame(prefix, msg)) == (prefix, msg)
  {
    UnframeSplit(prefix, msg);
  }

  /** A message of the authenticated stack, innermost field last. */
  datatype Packet = Packet(rank: nat, id: string, signature: string, code: string, body: string)

  /** What leaves the socket: code, signature, id and sender rank are put in front one by one. */
  function Encode(p: Packet): string {
    Frame(Decimal(p.rank), Frame(p.id, Frame(p.signature, Frame(p.code, p.body))))
  }

  /** The receiving layers strip rank, id and signature and then look for the code. */
  function Decode(s: string, code: string): Option<Packet> {
    var (rank, m1) := Unframe(s);
    var (id, m2) := Unframe(m1);
    var (signature, m3) := Unframe(m2);
    if code <= m3 && Atoi(rank) >= 0 then Some(Packet(Atoi(rank), id, signature, code, Body(m3, code))) else None
  }

  /** What is written, from the outside in. */
  lemma StackText(p: Packet)
    requires |Decimal(p.rank)| + |p.id| + |p.signature| + |p.code| + |p.body| + 4 <= MAX_TEXT
    ensures Encode(p) == Decimal(p.rank) + ("," + (p.id + ("," + (p.signature + ("," + (p.code + ("," + p.body)))))))
  {
    FrameText(p.code, p.body);
    FrameText(p.signature, p.code + ("," + p.body));
    FrameText(p.id, p.signature + ("," + (p.code + ("," + p.body))));
    FrameText(Decimal(p.rank), p.id + ("," + (p.signature + ("," + (p.code + ("," + p.body))))));
  }

  lemma FrameText(prefix: string, msg: string)
    requires |prefix| + 1 + |msg| <= MAX_TEXT
    ensures Frame(prefix, msg) == prefix + ("," + msg)
  {
    assert prefix + "," + msg == prefix + ("," + msg);
  }

  /** Framing loses nothing as long as the outermost text fits: bodies may contain separators. */
  lemma StackRoundTrip(p: Packet)
    requires ',' !in p.id && ',' !in p.signature
    requires |Decimal(p.rank)| + |p.id| + |p.signature| + |p.code| + |p.body| + 4 <= MAX_TEXT
    ensures Decode(Encode(p), p.code) == Some(p)
  {
    var m3 := p.code + "," + p.body;
    var m2 := p.signature + "," + m3;
    var m1 := p.id + "," + m2;
    DecimalHasNoComma(p.rank);
    FrameUnframe(Decimal(p.rank), m1);
    FrameUnframe(p.id, m2);
    FrameUnframe(p.signature, m3);
    AtoiDecimal(p.rank);
    assert m3[|p.code| + 1..] == p.body;
  }

  /** A relayed message names its originator and the originator's id for it. */
  function EncodeRelay(origin: nat, id: string, body: string): string {
    Cut(Join(["BC", Decimal(origin), id, body]))
  }

  /** What the handlers read: code, originator, id and the rest, if there are two separators. */
  function ParseRelay(msg: string): Option<(int, string, string)> {
    if "BC" <= msg && Commas(Body(msg, "BC")) >= 2 then
      var (origin, rest) := Unframe(Body(msg, "BC"));
      var (id, body) := Unframe(rest);
      Some((Atoi(origin), id, body))
    else None
  }

  method DecodeRelay(msg: string) returns (r: Option<(int, string, string)>)
    ensures r == ParseRelay(msg)
  {
    var buf := TryParseMessage(msg, "BC");
    if buf.None? {
      return None;
    }
    var fields := ParseMessage(buf.value, 3);
    if fields.None? {
      return None;
    }
    UnframeThree(fields.value, buf.value);
    return Some((Atoi(fields.value[0]), fields.value[1], fields.value[2]));
  }

  lemma UnframeThree(fields: seq<string>, s: string)
    requires |fields| == 3 && Separable(fields) && Join(fields) == s
    ensures Unframe(s) == (fields[0], fields[1] + "," + fields[2])
    ensures Unframe(fields[1] + "," + fields[2]) == (fields[1], fields[2])
  {
    assert fields[1..][0] == fields[1] && fields[1..][1..] == [fields[2]];
    assert Join(fields[1..]) == fields[1] + "," + Join([fields[2]]);
    assert Join(fields) == fields[0] + "," + (fields[1] + "," + fields[2]);
    UnframeSplit(fields[0], fields[1] + "," + fields[2]);
    UnframeSplit(fields[1], fields[2]);
  }

  /** What is written: code, originator, id and body, with separators between them. */
  lemma RelayText(origin: nat, id: string, body: string)
    ensures EncodeRelay(origin, id, body) == Cut("BC," + (Decimal(origin) + "," + (id + "," + body)))
  {
    JoinRelay(origin, id, body);
    assert "BC" + "," == "BC,";
  }

  /** The text has the code, any one character, and three fields of which the first two hold no separator. */
  ghost predicate RelayShaped(msg: string, c: char, origin: string, id: string, body: string) {
    ',' !in origin && ',' !in id && msg == "BC" + [c] + (origin + ("," + (id + ("," + body))))
  }

  lemma UnframeJoin(s: string)
    requires Commas(s) >= 1
    ensures var (prefix, msg) := Unframe(s);
            ',' !in prefix && s == prefix + "," + msg && Commas(s) == 1 + Commas(msg)
  {
    if s[0] == ',' {
      assert s == "" + "," + s[1..];
    } else {
      UnframeJoin(s[1..]);
    }
  }

  /** A text is read as originator, id and body if and only if it has that shape. */
  lemma RelayReadExactly(msg: string, origin: int, id: string, body: string)
    ensures ParseRelay(msg) == Some((origin, id, body))
       <==> exists c, digits :: RelayShaped(msg, c, digits, id, body) && Atoi(digits) == origin
  {
    if ParseRelay(msg) == Some((origin, id, body)) {
      ReadIsShaped(msg, origin, id, body);
    }
    if c, digits :| RelayShaped(msg, c, digits, id, body) && Atoi(digits) == origin {
      ShapedIsRead(msg, c, digits, id, body);
    }
  }

  lemma ReadIsShaped(msg: string, origin: int, id: string, body: string)
    requires ParseRelay(msg) == Some((origin, id, body))
    ensures exists c, digits :: RelayShaped(msg, c, digits, id, body) && Atoi(digits) == origin
  {
    var fields := Body(msg, "BC");
    var digits := TwoSeparators(fields);
    assert |msg| > 2 && msg == "BC" + [msg[2]] + fields;
    assert RelayShaped(msg, msg[2], digits, id, body);
  }

  lemma TwoSeparators(s: string) returns (first: string)
    requires Commas(s) >= 2
    ensures var (second, third) := Unframe(Unframe(s).1);
            first == Unframe(s).0 && ',' !in first && ',' !in second && s == first + ("," + (second + ("," + third)))
  {
    UnframeJoin(s);
    UnframeJoin(Unframe(s).1);
    first := Unframe(s).0;
    var (second, third) := Unframe(Unframe(s).1);
    assert Unframe(s).1 == second + ("," + third);
    assert first + "," + Unframe(s).1 == first + ("," + Unframe(s).1);
  }

  lemma ShapedIsRead(msg: string, c: char, digits: string, id: string, body: string)
    requires RelayShaped(msg, c, digits, id, body)
    ensures ParseRelay(msg) == Some((Atoi(digits), id, body))
  {
    BodyBehindCode("BC", c, digits + ("," + (id + ("," + body))));
    CommasBehind(digits, id + "," + body);
    CommasBehind(id, body);
    UnframeSplit(digits, id + "," + body);
    UnframeSplit(id, body);
    assert digits + ("," + (id + ("," + body))) == digits + "," + (id + "," + body);
  }

  /** Parsing what a relay sent gives back originator, id and body, whatever the body contains. */
  lemma RelayRoundTrip(origin: nat, id: string, body: string)
    requires ',' !in id && |Decimal(origin)| + |id| + |body| + 5 <= MAX_TEXT
    ensures ParseRelay(EncodeRelay(origin, id, body)) == Some((origin as int, id, body))
  {
    var fields := [Decimal(origin), id, body];
    RelayShape(origin, id, body);
    RelayFields(origin, id, body);
    UnframeThree(fields, Join(fields));
    AtoiDecimal(origin);
  }

  lemma JoinRelay(origin: nat, id: string, body: string)
    ensures Join([Decimal(origin), id, body]) == Decimal(origin) + "," + (id + "," + body)
    ensures Join(["BC", Decimal(origin), id, body]) == "BC" + "," + Join([Decimal(origin), id, body])
  {
    assert [Decimal(origin), id, body][1..] == [id, body] && [id, body][1..] == [body];
    assert Join([id, body]) == id + "," + body;
    assert ["BC", Decimal(origin), id, body][1..] == [Decimal(origin), id, body];
  }

  lemma RelayShape(origin: nat, id: string, body: string)
    requires |Decimal(origin)| + |id| + |body| + 5 <= MAX_TEXT
    ensures var msg := EncodeRelay(origin, id, body);
            "BC" <= msg && Body(msg, "BC") == Join([Decimal(origin), id, body])
  {
    JoinRelay(origin, id, body);
    var rest := Join([Decimal(origin), id, body]);
    assert ("BC" + "," + rest)[3..] == rest;
  }

  lemma RelayFields(origin: nat, id: string, body: string)
    requires ',' !in id
    ensures var fields := [Decimal(origin), id, body]; Separable(fields) && Commas(Join(fields)) >= 2
  {
    DecimalHasNoComma(origin);
    JoinRelay(origin, id, body);
    CommasBehind(Decimal(origin), id + "," + body);
    CommasBehind(id, body);
  }
}

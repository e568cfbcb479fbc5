/**
 The authenticated link: a signature in hexadecimal goes in front of each message and is checked and
 stripped in place on arrival. The signature scheme itself is a parameter.
 */
module AuthLink {
  import opened Ranks
  import opened Messages
  import opened TextBuffer
  import opened Wire

  /** Whether a signature, as text, is valid for a message under a rank's public key. */
  type Checks = (Rank, string, string) -> bool

  predicate Accepts(maxRank: nat, checks: Checks, sender: int, text: string) {
    var (signature, rest) := Unframe(text);
    0 < |signature| && 1 <= sender <= maxRank && 0 < |rest| && checks(sender, signature, rest)
  }

  lemma {:induction false} UnframeWhole(s: string)
    requires ',' !in s
    ensures Unframe(s) == (s, "")
  {
    if |s| > 0 {
      UnframeWhole(s[1..]);
      assert s == [s[0]] + s[1..];
    }
  }

  /**
   What is signed and framed is accepted exactly if it is not empty and the signature checks, and
   gives back the message: nothing is lost or added, whatever separators the message contains.
   */
  lemma SignedRoundTrip(maxRank: nat, checks: Checks, sender: Rank, signature: string, msg: string)
    requires 1 <= sender <= maxRank && 0 < |signature| && ',' !in signature
    requires |signature| + 1 + |msg| <= MAX_TEXT
    ensures Accepts(maxRank, checks, sender, Frame(signature, msg)) <==> 0 < |msg| && checks(sender, signature, msg)
    ensures Unframe(Frame(signature, msg)).1 == msg
  {
    FrameUnframe(signature, msg);
  }

  ghost predicate SignedBy(checks: Checks, sender: Rank, signature: string, msg: string, text: string) {
    0 < |signature| && ',' !in signature && text == signature + "," + msg && checks(sender, signature, msg)
  }

  lemma {:induction false} UnframeText(s: string)
    requires Unframe(s).1 != ""
    ensures ',' !in Unframe(s).0 && s == Unframe(s).0 + "," + Unframe(s).1
  {
    if s[0] == ',' {
      assert s == "" + "," + s[1..];
    } else {
      UnframeText(s[1..]);
    }
  }

  /**
   Any text is accepted as a message if and only if its sender is a rank of the group and it is a
   signature valid under that rank, a separator and the message, which is not empty.
   */
  lemma AcceptsExactly(maxRank: nat, checks: Checks, sender: int, text: string, msg: string)
    ensures Accepts(maxRank, checks, sender, text) && Unframe(text).1 == msg
       <==> 1 <= sender <= maxRank && msg != "" && exists signature :: SignedBy(checks, sender, signature, msg, text)
  {
    if Accepts(maxRank, checks, sender, text) && Unframe(text).1 == msg {
      UnframeText(text);
      assert SignedBy(checks, sender, Unframe(text).0, msg, text);
    }
    if 1 <= sender <= maxRank && msg != "" {
      if signature :| SignedBy(checks, sender, signature, msg, text) {
        UnframeSplit(signature, msg);
      }
    }
  }

  class AuthPerfectLink {
    const maxRank: nat
    const sign: string -> string
    const checks: Checks
    /** What was handed to the perfect link, and to the callback of the layer above. */
    var outbox: seq<Outgoing>
    var delivered: seq<(int, string)>

    constructor (maxRank: nat, sign: string -> string, checks: Checks)
      ensures this.maxRank == maxRank && this.sign == sign && this.checks == checks
      ensures outbox == [] && delivered == []
    {
      this.maxRank, this.sign, this.checks := maxRank, sign, checks;
      outbox, delivered := [], [];
    }

    /** The text in the caller's buffer is replaced by the framed one, which is handed down. */
    method Send(recipient: Rank, buf: array<char>, ghost msg: string)
      requires Holds(buf, msg) && buf.Length == MAX_TEXT + 1
      requires '\0' !in sign(msg)
      modifies `outbox, buf
      ensures Holds(buf, Frame(sign(msg), msg))
      ensures outbox == old(outbox) + [Outgoing(recipient, Frame(sign(msg), msg))]
    {
      var len := StrLen(buf, msg);
      var text := buf[..len];
      assert text == msg;
      var framed := Frame(sign(text), text);
      CopyIn(buf, framed);
      outbox := outbox + [Outgoing(recipient, framed)];
    }

    /** strcpy of a text that fits. */
    static method CopyIn(buf: array<char>, text: string)
      requires |text| < buf.Length && '\0' !in text
      modifies buf
      ensures Holds(buf, text)
    {
      forall i | 0 <= i < |text| {
        buf[i] := text[i];
      }
      buf[|text|] := '\0';
    }

    /** memmove of the text behind the offset, terminator included, to the front. */
    static method MoveDown(buf: array<char>, offset: nat, len: nat, ghost s: string)
      requires Holds(buf, s) && offset <= |s| == len
      modifies buf
      ensures Holds(buf, s[offset..])
    {
      forall j | 0 <= j <= len - offset {
        buf[j] := buf[j + offset];
      }
    }

    static lemma UnframeAt(s: string, n: nat)
      requires n <= |s| && (forall i :: 0 <= i < n ==> s[i] != ',') && (n < |s| ==> s[n] == ',')
      ensures Unframe(s) == (s[..n], if n < |s| then s[n + 1..] else "")
    {
      if n < |s| {
        UnframeSplit(s[..n], s[n + 1..]);
        assert s[..n] + "," + s[n + 1..] == s;
      } else {
        UnframeWhole(s);
        assert s[..n] == s;
      }
    }

    /** The callback of the perfect link: the message goes up stripped if it is accepted, else nowhere. */
    method Wrapper(sender: int, buf: array<char>, ghost text: string)
      requires Holds(buf, text)
      modifies `delivered, buf
      ensures Accepts(maxRank, checks, sender, text) ==>
                Holds(buf, Unframe(text).1) && delivered == old(delivered) + [(sender, Unframe(text).1)]
      ensures !Accepts(maxRank, checks, sender, text) ==> Holds(buf, text) && delivered == old(delivered)
    {
      var sigHexLen := CommaSpan(buf, text);
      UnframeAt(text, sigHexLen);
      if sigHexLen == 0 || sender < 1 || sender > maxRank {
        return;
      }
      var len := StrLen(buf, text);
      var offset := sigHexLen + 1;
      if offset >= len {
        return;
      }
      var signature, rest := buf[..sigHexLen], buf[offset..len];
      assert signature == text[..sigHexLen] && rest == text[offset..];
      if !checks(sender, signature, rest) {
        return;
      }
      MoveDown(buf, offset, len, text);
      var rest' := StrLen(buf, text[offset..]);
      var up := buf[..rest'];
      assert up == text[offset..];
      delivered := delivered + [(sender, up)];
    }
  }

  // ---------------------------------------------------------------- what the perfect link can strip

  const ID_LEN := 36

  /** The strip loop of the perfect link stops behind the message that remains under its id. */
  predicate Strippable(rest: string)
    requires |rest| + ID_LEN + 1 <= MAX_TEXT
  {
    !StripGoesOn(|rest| + 1, |rest|, ID_LEN + 1)
  }

  /** Under a 36-character id, that is a rest of at least 37 characters. */
  lemma StrippableExactly(rest: string)
    requires |rest| + 37 <= MAX_TEXT
    ensures Strippable(rest) <==> |rest| >= 37
  {
    StripStopsExactly(|rest| + 37, 37);
  }

  /**
   Signed messages and relays are always long enough for the strip loop, but the two-letter
   messages of the failure detectors are not.
   */
  lemma WhatIsStrippable(signature: string, msg: string, origin: nat, id: string, body: string)
    requires |signature| == 128 && |id| == ID_LEN
    requires |Frame(signature, msg)| + ID_LEN + 1 <= MAX_TEXT
    requires |EncodeRelay(origin, id, body)| + ID_LEN + 1 <= MAX_TEXT
    ensures Strippable(Frame(signature, msg)) && Strippable(EncodeRelay(origin, id, body))
    ensures !Strippable("HB") && !Strippable("IA")
  {
    JoinRelay(origin, id, body);
    StrippableExactly(Frame(signature, msg));
    StrippableExactly(EncodeRelay(origin, id, body));
  }
}

/** The connect request comm_udp_server recognises in a datagram: "ew con <port> w5500". */
module UdpCommand {
  import opened Bytes
  import opened Decimal

  const SPACE: byte := 0x20
  /** "ew con " */
  const PREFIX: bytes := [0x65, 0x77, 0x20, 0x63, 0x6f, 0x6e, 0x20]
  /** "w5500" */
  const OWN_ID: bytes := [0x77, 0x35, 0x35, 0x30, 0x30]

  /** The string a buffer holds up to its first terminator. */
  function CString(s: bytes): (t: bytes)
    ensures t <= s && 0 !in t && (|t| < |s| ==> s[|t|] == 0)
  {
    s[..Find(s, 0)]
  }

  function SkipSpaces(s: bytes): (t: bytes)
    ensures |t| <= |s|
  {
    if s == [] || s[0] != SPACE then s else SkipSpaces(s[1..])
  }

  /** strtok with a space: the next token and what is left behind its delimiter. */
  function Token(s: bytes): Option<(bytes, bytes)> {
    var t := SkipSpaces(s);
    if t == [] then None
    else
      var i := Find(t, SPACE);
      Some((t[..i], if i < |t| then t[i + 1..] else []))
  }

  /** The port of a verified connect request. */
  function ConnectPort(dgram: bytes): Option<u16> {
    if |dgram| < |PREFIX| || dgram[..|PREFIX|] != PREFIX then None
    else
      match Token(CString(dgram[|PREFIX|..]))
      case None => None
      case Some((port, rest)) =>
        match Token(rest)
        case None => None
        case Some((id, _)) => if id == OWN_ID then Some(Trunc16(Atoi(port))) else None
  }

  function Request(port: u16): bytes {
    PREFIX + (Text(port) + [SPACE] + OWN_ID)
  }

  lemma TokenIs(word: bytes, rest: bytes)
    requires word != [] && SPACE !in word
    ensures Token(word + [SPACE] + rest) == Some((word, rest)) && Token(word) == Some((word, []))
  {
    var s := word + [SPACE] + rest;
    assert s[0] == word[0] && s[..|word|] == word;
    FindIs(s, SPACE, |word|);
    assert s[|word| + 1..] == rest;
    assert forall k :: 0 <= k < |word| ==> word[k] != SPACE;
    assert word[..|word|] == word;
  }

  lemma CStringWhole(s: bytes)
    requires 0 !in s
    ensures CString(s) == s
  {
    assert forall k :: 0 <= k < |s| ==> s[k] != 0;
  }

  lemma RequestParts(text: bytes)
    requires forall b :: b in text ==> IsDigit(b)
    ensures var tail := text + [SPACE] + OWN_ID;
            0 !in tail && SPACE !in text && (PREFIX + tail)[..|PREFIX|] == PREFIX && (PREFIX + tail)[|PREFIX|..] == tail
  {
  }

  lemma TokensAreRead(dgram: bytes, tail: bytes, text: bytes)
    requires |dgram| >= |PREFIX| && dgram[..|PREFIX|] == PREFIX && dgram[|PREFIX|..] == tail && CString(tail) == tail
    requires Token(tail) == Some((text, OWN_ID)) && Token(OWN_ID) == Some((OWN_ID, []))
    ensures ConnectPort(dgram) == Some(Trunc16(Atoi(text)))
  {
  }

  /** Every port is recovered from the request that announces it. */
  lemma RequestIsRead(port: u16)
    ensures ConnectPort(Request(port)) == Some(port)
  {
    hide Token, CString, Atoi, Text, ConnectPort;
    var text := Text(port);
    RequestParts(text);
    CStringWhole(text + [SPACE] + OWN_ID);
    TokenIs(text, OWN_ID);
    TokenIs(OWN_ID, []);
    TokensAreRead(Request(port), text + [SPACE] + OWN_ID, text);
    AtoiOfText(port, []);
    assert text + [] == text;
  }

  // ---------------------------------------------------------------------------------------
  // What is a request, and what is not.

  /** A token at offset `k`: only spaces in front, none in it, and one behind it or the end. */
  ghost predicate TokenAt(s: bytes, k: nat, word: bytes, rest: bytes) {
    && k + |word| <= |s| && word != [] && 0x20 !in word
    && (forall i :: 0 <= i < k ==> s[i] == 0x20) && s[k..k + |word|] == word
    && if k + |word| == |s| then rest == [] else s[k + |word|] == 0x20 && rest == s[k + |word| + 1..]
  }

  lemma {:induction false} SkipIs(s: bytes)
    ensures var k := |s| - |SkipSpaces(s)|;
            && SkipSpaces(s) == s[k..] && (forall i :: 0 <= i < k ==> s[i] == SPACE) && (k < |s| ==> s[k] != SPACE)
    decreases |s|
  {
    if s != [] && s[0] == SPACE {
      SkipIs(s[1..]);
    }
  }

  lemma {:induction false} SkipSpacesIs(s: bytes, k: nat)
    requires k < |s| && s[k] != SPACE && forall i :: 0 <= i < k ==> s[i] == SPACE
    ensures SkipSpaces(s) == s[k..]
    decreases k
  {
    if k > 0 {
      SkipSpacesIs(s[1..], k - 1);
    }
  }

  lemma TokenStands(s: bytes, k: nat, word: bytes, rest: bytes)
    requires TokenAt(s, k, word, rest)
    ensures Token(s) == Some((word, rest))
  {
    assert s[k] == s[k..k + |word|][0] == word[0];
    SkipSpacesIs(s, k);
    var t := s[k..];
    assert t[..|word|] == word;
    if k + |word| < |s| {
      FindIs(t, SPACE, |word|);
      assert t[|word| + 1..] == rest;
    } else {
      assert t == word && t[..|t|] == t;
    }
  }

  /** The next token of a string is what strtok says, and there is none exactly when there are only
      spaces. */
  lemma TokenIff(s: bytes, word: bytes, rest: bytes)
    ensures Token(s) == Some((word, rest)) <==> exists k :: TokenAt(s, k, word, rest)
    ensures Token(s).None? <==> forall i :: 0 <= i < |s| ==> s[i] == 0x20
  {
    SkipIs(s);
    var k := |s| - |SkipSpaces(s)|;
    if Token(s) == Some((word, rest)) {
      var t := s[k..];
      var i := Find(t, SPACE);
      assert word == t[..i] == s[k..k + i];
      assert TokenAt(s, k, word, rest);
    }
    if j :| TokenAt(s, j, word, rest) {
      TokenStands(s, j, word, rest);
    }
  }

  /** A request: "ew con ", then, up to a terminator, a port as any first token and "w5500" as the
      second. */
  ghost predicate IsRequest(dgram: bytes, text: bytes, rest: bytes, tail: bytes) {
    && |dgram| >= 7 && dgram[..7] == [0x65, 0x77, 0x20, 0x63, 0x6f, 0x6e, 0x20]
    && (exists k :: TokenAt(CString(dgram[7..]), k, text, rest))
    && (exists k :: TokenAt(rest, k, [0x77, 0x35, 0x35, 0x30, 0x30], tail))
  }

  /** Main result: a datagram is taken for a connect request exactly when it is one, and its port is the
      number the first token says. */
  lemma ConnectPortIff(dgram: bytes, port: u16)
    ensures ConnectPort(dgram) == Some(port) <==>
            exists text, rest, tail :: IsRequest(dgram, text, rest, tail) && port == Trunc16(Atoi(text))
  {
    hide Token, CString, Atoi;
    if ConnectPort(dgram) == Some(port) {
      var s := CString(dgram[7..]);
      var (text, rest) := Token(s).value;
      var tail := Token(rest).value.1;
      TokenIff(s, text, rest);
      TokenIff(rest, OWN_ID, tail);
      assert IsRequest(dgram, text, rest, tail);
    }
    if text, rest, tail :| IsRequest(dgram, text, rest, tail) && port == Trunc16(Atoi(text)) {
      TokenIff(CString(dgram[7..]), text, rest);
      TokenIff(rest, OWN_ID, tail);
    }
  }

  /** In particular a request in the usual form is taken exactly when it is for this board, and nothing is
      that does not begin with "ew con ". */
  lemma OthersAreRefused(text: bytes, id: bytes, dgram: bytes)
    requires text != [] && id != [] && forall b :: b in text + id ==> b != 0 && b != 0x20
    ensures ConnectPort([0x65, 0x77, 0x20, 0x63, 0x6f, 0x6e, 0x20] + text + [0x20] + id).Some? <==>
            id == [0x77, 0x35, 0x35, 0x30, 0x30]
    ensures ConnectPort([0x65, 0x77, 0x20, 0x63, 0x6f, 0x6e, 0x20] + text).None?
    ensures |dgram| < 7 || dgram[..7] != [0x65, 0x77, 0x20, 0x63, 0x6f, 0x6e, 0x20] ==> ConnectPort(dgram).None?
  {
    var prefix: bytes := [0x65, 0x77, 0x20, 0x63, 0x6f, 0x6e, 0x20];
    var s := text + [0x20] + id;
    assert forall b :: b in text ==> b in text + id;
    assert forall b :: b in id ==> b in text + id;
    assert (prefix + text + [0x20] + id)[..7] == prefix && (prefix + text + [0x20] + id)[7..] == s;
    assert (prefix + text)[..7] == prefix && (prefix + text)[7..] == text;
    CStringWhole(s);
    CStringWhole(text);
    TokenIs(text, id);
    TokenIs(id, []);
    assert Token([]) == None;
  }
}

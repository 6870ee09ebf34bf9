/** JSON pointers: the single-pass token decoder, resolution, and what both invert. */
module Pointer {
  import opened Wrappers
  import opened Contracts
  import opened Instant

  datatype PointerError = InvalidEscape | NotAbsolute | RootNotPermitted | IndexNotCanonical

  // ---- Decoding one token --------------------------------------------------

  function Prepend(c: char, r: Result<string, PointerError>): Result<string, PointerError> {
    match r
    case Ok(s) => Ok([c] + s)
    case Err(e) => Err(e)
  }

  function Decode(segment: string): Result<string, PointerError> {
    if segment == [] then Ok([])
    else if segment[0] != '~' then Prepend(segment[0], Decode(segment[1..]))
    else if |segment| < 2 || (segment[1] != '0' && segment[1] != '1') then Err(InvalidEscape)
    else Prepend(if segment[1] == '0' then '~' else '/', Decode(segment[2..]))
  }

  function After(done: string, r: Result<string, PointerError>): Result<string, PointerError> {
    match r
    case Ok(s) => Ok(done + s)
    case Err(e) => Err(e)
  }

  method DecodeSegment(segment: string) returns (r: Result<string, PointerError>)
    ensures r == Decode(segment)
  {
    var result: string := [];
    var index := 0;
    assert segment[0..] == segment;
    assert forall s: string :: [] + s == s;
    while index < |segment|
      invariant index <= |segment|
      invariant Decode(segment) == After(result, Decode(segment[index..]))
    {
      var rest := segment[index..];
      if segment[index] != '~' {
        assert rest[1..] == segment[index + 1..];
        assert forall s: string :: result + ([segment[index]] + s) == (result + [segment[index]]) + s;
        result := result + [segment[index]];
        index := index + 1;
        continue;
      }
      if index + 1 >= |segment| || (segment[index + 1] != '0' && segment[index + 1] != '1') {
        return Err(InvalidEscape);
      }
      var c := if segment[index + 1] == '0' then '~' else '/';
      assert rest[2..] == segment[index + 2..];
      assert forall s: string :: result + ([c] + s) == (result + [c]) + s;
      result := result + [c];
      index := index + 2;
    }
    assert segment[index..] == [] && result + [] == result;
    r := Ok(result);
  }

  /** Left-to-right replacement of every "~`code`" by `plain`. */
  function Replace(s: string, code: char, plain: char): string {
    if s == [] then []
    else if |s| >= 2 && s[0] == '~' && s[1] == code then [plain] + Replace(s[2..], code, plain)
    else [s[0]] + Replace(s[1..], code, plain)
  }

  /** Section 4 of RFC 6901: first "~1" becomes "/", then "~0" becomes "~". */
  function TwoPass(s: string): string {
    Replace(Replace(s, '1', '/'), '0', '~')
  }

  /** Every tilde starts an escape. */
  predicate ValidEscapes(s: string) {
    forall i :: 0 <= i < |s| && s[i] == '~' ==> i + 1 < |s| && (s[i + 1] == '0' || s[i + 1] == '1')
  }

  lemma {:induction false} DecodeIsTwoPass(s: string)
    ensures ValidEscapes(s) ==> Decode(s) == Ok(TwoPass(s))
    ensures !ValidEscapes(s) ==> Decode(s) == Err(InvalidEscape)
  {
    if s == [] {
    } else if s[0] != '~' {
      DecodeIsTwoPass(s[1..]);
      assert ValidEscapes(s) <==> ValidEscapes(s[1..]) by {
        ValidTail(s, 1);
      }
      var once := Replace(s[1..], '1', '/');
      assert ([s[0]] + once)[1..] == once;
    } else if |s| >= 2 && (s[1] == '0' || s[1] == '1') {
      DecodeIsTwoPass(s[2..]);
      assert ValidEscapes(s) <==> ValidEscapes(s[2..]) by {
        ValidTail(s, 2);
      }
      TildeHead(s);
    }
  }

  /** Dropping a complete head leaves the same escapes to check. */
  lemma ValidTail(s: string, k: nat)
    requires 1 <= k <= |s| && k <= 2
    requires k == 1 ==> s[0] != '~'
    requires k == 2 ==> s[0] == '~' && (s[1] == '0' || s[1] == '1')
    ensures ValidEscapes(s) <==> ValidEscapes(s[k..])
  {
    var t := s[k..];
    if ValidEscapes(t) {
      forall i | 0 <= i < |s| && s[i] == '~'
        ensures i + 1 < |s| && (s[i + 1] == '0' || s[i + 1] == '1')
      {
        if i >= k {
          assert t[i - k] == '~';
        }
      }
    }
    if ValidEscapes(s) {
      forall i | 0 <= i < |t| && t[i] == '~'
        ensures i + 1 < |t| && (t[i + 1] == '0' || t[i + 1] == '1')
      {
        assert s[i + k] == '~';
      }
    }
  }

  lemma TildeHead(s: string)
    requires |s| >= 2 && s[0] == '~' && (s[1] == '0' || s[1] == '1')
    ensures TwoPass(s) == [if s[1] == '0' then '~' else '/'] + TwoPass(s[2..])
  {
    var once := Replace(s[2..], '1', '/');
    if s[1] == '1' {
      assert Replace(s, '1', '/') == ['/'] + once;
      assert (['/'] + once)[1..] == once;
    } else {
      assert s[1..][1..] == s[2..];
      assert Replace(s[1..], '1', '/') == ['0'] + once;
      var pass := ['~'] + (['0'] + once);
      assert Replace(s, '1', '/') == pass;
      assert pass[2..] == once;
    }
  }

  // ---- Escaping ------------------------------------------------------------

  /** Section 3 of RFC 6901: "~" is written "~0" and "/" is written "~1". */
  function Escape(name: string): string {
    if name == [] then []
    else (if name[0] == '~' then "~0" else if name[0] == '/' then "~1" else [name[0]]) + Escape(name[1..])
  }

  predicate NoSlash(s: string) {
    forall i :: 0 <= i < |s| ==> s[i] != '/'
  }

  lemma {:induction false} DecodeEscape(name: string)
    ensures Decode(Escape(name)) == Ok(name) && NoSlash(Escape(name))
  {
    if name != [] {
      DecodeEscape(name[1..]);
      var e := Escape(name[1..]);
      assert name == [name[0]] + name[1..];
      if name[0] == '~' {
        assert ("~0" + e)[2..] == e;
      } else if name[0] == '/' {
        assert ("~1" + e)[2..] == e;
      } else {
        assert ([name[0]] + e)[1..] == e;
      }
    }
  }

  predicate Plain(s: string) {
    forall i :: 0 <= i < |s| ==> s[i] != '/' && s[i] != '~'
  }

  lemma {:induction false} PlainTokens(s: string)
    requires Plain(s)
    ensures Escape(s) == s && Decode(s) == Ok(s)
  {
    if s != [] {
      PlainTokens(s[1..]);
      assert s == [s[0]] + s[1..];
    }
  }

  // ---- Splitting -----------------------------------------------------------

  function Split(s: string): (parts: seq<string>)
    ensures |parts| >= 1
  {
    if s == [] then [[]]
    else
      var rest := Split(s[1..]);
      if s[0] == '/' then [[]] + rest else [[s[0]] + rest[0]] + rest[1..]
  }

  lemma {:induction false} SplitToken(token: string, rest: string)
    requires NoSlash(token)
    ensures Split(token) == [token]
    ensures Split(token + ("/" + rest)) == [token] + Split(rest)
  {
    if token == [] {
      assert token + ("/" + rest) == "/" + rest;
      assert ("/" + rest)[1..] == rest;
    } else {
      SplitToken(token[1..], rest);
      assert token == [token[0]] + token[1..];
      assert (token + ("/" + rest))[1..] == token[1..] + ("/" + rest);
    }
  }

  // ---- Resolution ----------------------------------------------------------

  predicate PermittedRoot(segment: string) {
    segment == "actor" || segment == "action" || segment == "resource" || segment == "context"
  }

  /** An array index without sign or leading zero. */
  predicate CanonicalIndex(segment: string) {
    segment != [] && AllDigits(segment) && !(|segment| > 1 && segment[0] == '0')
  }

  /** One step down; `Ok(None)` when nothing is there. */
  function Descend(current: Json, segment: string): Result<Option<Json>, PointerError> {
    match current
    case JObj(fields) => if segment in fields then Ok(Some(fields[segment])) else Ok(None)
    case JArr(items) =>
      if !CanonicalIndex(segment) then Err(IndexNotCanonical)
      else if ParseNat(segment) >= |items| then Ok(None)
      else Ok(Some(items[ParseNat(segment)]))
    case _ => Ok(None)
  }

  function ResolveFrom(current: Json, segments: seq<string>): Result<Option<Json>, PointerError> {
    if segments == [] then Ok(Some(current))
    else
      match Decode(segments[0])
      case Err(e) => Err(e)
      case Ok(segment) =>
        match Descend(current, segment)
        case Err(e) => Err(e)
        case Ok(None) => Ok(None)
        case Ok(Some(next)) => ResolveFrom(next, segments[1..])
  }

  function Resolve(document: Json, pointer: string): Result<Option<Json>, PointerError> {
    if pointer == [] || pointer[0] != '/' then Err(NotAbsolute)
    else
      var segments := Split(pointer)[1..];
      if segments == [] || !PermittedRoot(segments[0]) then Err(RootNotPermitted)
      else ResolveFrom(document, segments)
  }

  method ResolvePointer(document: Json, pointer: string) returns (r: Result<Option<Json>, PointerError>)
    ensures r == Resolve(document, pointer)
  {
    if pointer == [] || pointer[0] != '/' {
      return Err(NotAbsolute);
    }
    var segments := Split(pointer)[1..];
    if segments == [] || !PermittedRoot(segments[0]) {
      return Err(RootNotPermitted);
    }
    var current := document;
    for k := 0 to |segments|
      invariant ResolveFrom(document, segments) == ResolveFrom(current, segments[k..])
    {
      assert segments[k..][1..] == segments[k + 1..];
      var segment := DecodeSegment(segments[k]);
      if segment.Err? {
        return Err(segment.error);
      }
      var next := Descend(current, segment.value);
      if next.Err? || next.value.None? {
        return next;
      }
      current := next.value.value;
    }
    r := Ok(Some(current));
  }

  // ---- Resolution inverts escaping -----------------------------------------

  datatype Step = Field(name: string) | Item(index: nat)

  /** The node a path of steps leads to. */
  function At(json: Json, path: seq<Step>): Option<Json> {
    if path == [] then Some(json)
    else
      match (json, path[0])
      case (JObj(fields), Field(name)) => if name in fields then At(fields[name], path[1..]) else None
      case (JArr(items), Item(i)) => if i < |items| then At(items[i], path[1..]) else None
      case _ => None
  }

  function Token(step: Step): string {
    match step
    case Field(name) => Escape(name)
    case Item(i) => Decimal(i)
  }

  function Encode(path: seq<Step>): string {
    if path == [] then [] else "/" + (Token(path[0]) + Encode(path[1..]))
  }

  function Tokens(path: seq<Step>): seq<string> {
    if path == [] then [] else [Token(path[0])] + Tokens(path[1..])
  }

  lemma {:induction false} CanonicalDecimal(n: nat)
    ensures CanonicalIndex(Decimal(n)) && ParseNat(Decimal(n)) == n && Decode(Decimal(n)) == Ok(Decimal(n))
    ensures NoSlash(Decimal(n))
    ensures n > 0 ==> Decimal(n)[0] != '0'
  {
    var s := Decimal(n);
    if n >= 10 {
      CanonicalDecimal(n / 10);
      assert s[..|s| - 1] == Decimal(n / 10);
      assert s[0] == Decimal(n / 10)[0];
    }
    forall i | 0 <= i < |s|
      ensures s[i] != '/' && s[i] != '~'
    {
      assert IsDigit(s[i]);
    }
    PlainTokens(s);
  }

  lemma {:induction false} SplitEncoded(path: seq<Step>)
    requires path != []
    ensures Split(Encode(path)) == [[]] + Tokens(path)
  {
    var token, rest := Token(path[0]), Encode(path[1..]);
    var tail := token + rest;
    assert ("/" + tail)[1..] == tail;
    assert NoSlash(token) by {
      match path[0]
      case Field(name) => DecodeEscape(name);
      case Item(i) => CanonicalDecimal(i);
    }
    if path[1..] == [] {
      SplitToken(token, []);
      assert tail == token;
    } else {
      SplitEncoded(path[1..]);
      var rest' := Token(path[1..][0]) + Encode(path[1..][1..]);
      assert rest == "/" + rest';
      SplitToken(token, rest');
      assert rest[1..] == rest';
      assert Split(rest) == [[]] + Split(rest');
      assert ([[]] + Split(rest'))[1..] == Split(rest');
      assert ([[]] + Tokens(path[1..]))[1..] == Tokens(path[1..]);
    }
  }

  lemma {:induction false} TokensResolve(json: Json, path: seq<Step>)
    requires At(json, path).Some?
    ensures ResolveFrom(json, Tokens(path)) == Ok(At(json, path))
  {
    if path != [] {
      match (json, path[0])
      case (JObj(fields), Field(name)) =>
        DecodeEscape(name);
        TokensResolve(fields[name], path[1..]);
      case (JArr(items), Item(i)) =>
        CanonicalDecimal(i);
        TokensResolve(items[i], path[1..]);
      case _ =>
    }
  }

  /** A pointer written for any path into the document resolves to the node the path leads to. */
  lemma ResolveInvertsEncode(document: Json, path: seq<Step>)
    requires path != [] && path[0].Field? && PermittedRoot(path[0].name)
    requires At(document, path).Some?
    ensures Resolve(document, Encode(path)) == Ok(At(document, path))
  {
    SplitEncoded(path);
    TokensResolve(document, path);
    assert ([[]] + Tokens(path))[1..] == Tokens(path);
    PlainTokens(path[0].name);
  }

  // ---- What resolves at all ------------------------------------------------

  lemma {:induction false} EscapeDecoded(segment: string)
    requires NoSlash(segment) && Decode(segment).Ok?
    ensures Escape(Decode(segment).value) == segment
  {
    if segment != [] {
      if segment[0] != '~' {
        EscapeDecoded(segment[1..]);
        assert segment == [segment[0]] + segment[1..];
      } else {
        EscapeDecoded(segment[2..]);
        assert segment == [segment[0], segment[1]] + segment[2..];
      }
    }
  }

  lemma {:induction false} DecimalOfIndex(s: string)
    requires CanonicalIndex(s)
    ensures Decimal(ParseNat(s)) == s
  {
    var n := |s| - 1;
    if n > 0 {
      DecimalOfIndex(s[..n]);
      assert s == s[..n] + [s[n]];
    }
  }

  /** What the segments resolve to is at the end of a path whose tokens they are. */
  lemma {:induction false} PathOf(json: Json, segments: seq<string>) returns (path: seq<Step>)
    requires ResolveFrom(json, segments).Ok? && ResolveFrom(json, segments).value.Some?
    requires forall k :: 0 <= k < |segments| ==> NoSlash(segments[k])
    ensures Tokens(path) == segments && At(json, path) == ResolveFrom(json, segments).value
  {
    path := [];
    if segments != [] {
      var segment := Decode(segments[0]).value;
      var next := Descend(json, segment).value.value;
      var rest := PathOf(next, segments[1..]);
      EscapeDecoded(segments[0]);
      if json.JArr? {
        DecimalOfIndex(segment);
        CanonicalDecimal(ParseNat(segment));
        PlainDigits(segment);
        path := [Item(ParseNat(segment))] + rest;
      } else {
        path := [Field(segment)] + rest;
      }
      assert path[1..] == rest && segments == [segments[0]] + segments[1..];
    }
  }

  lemma PlainDigits(s: string)
    requires AllDigits(s)
    ensures Escape(s) == s
  {
    assert Plain(s) by {
      forall k | 0 <= k < |s|
        ensures s[k] != '/' && s[k] != '~'
      {
        assert IsDigit(s[k]);
      }
    }
    PlainTokens(s);
  }

  function Slashed(parts: seq<string>): string {
    if parts == [] then [] else "/" + (parts[0] + Slashed(parts[1..]))
  }

  lemma {:induction false} SplitParts(s: string)
    ensures forall k :: 0 <= k < |Split(s)| ==> NoSlash(Split(s)[k])
    ensures s == Split(s)[0] + Slashed(Split(s)[1..])
  {
    if s != [] {
      SplitParts(s[1..]);
      var rest := Split(s[1..]);
      assert s == [s[0]] + s[1..];
      if s[0] == '/' {
        assert ([[]] + rest)[1..] == rest;
      } else {
        assert ([[s[0]] + rest[0]] + rest[1..])[1..] == rest[1..];
      }
    }
  }

  lemma {:induction false} EncodeIsSlashed(path: seq<Step>)
    ensures Encode(path) == Slashed(Tokens(path))
  {
    if path != [] {
      EncodeIsSlashed(path[1..]);
    }
  }

  lemma PlainRoot(root: string)
    requires PermittedRoot(root)
    ensures Decode(root) == Ok(root) && (forall n: nat :: Decimal(n) != root)
  {
    assert Plain("actor") && Plain("action") && Plain("resource") && Plain("context");
    PlainTokens(root);
    forall n: nat
      ensures Decimal(n) != root
    {
      CanonicalDecimal(n);
      assert IsDigit(Decimal(n)[0]) && !IsDigit(root[0]);
    }
  }

  /** A pointer resolves to a value exactly if it is the escaping of a path, from one of the permitted roots, to that
      value. */
  lemma ResolvesIff(document: Json, pointer: string, v: Json)
    ensures Resolve(document, pointer) == Ok(Some(v))
            <==> exists path: seq<Step> :: && path != [] && path[0].Field? && PermittedRoot(path[0].name)
                                           && pointer == Encode(path) && At(document, path) == Some(v)
  {
    hide PermittedRoot, ResolveFrom, Encode, At, Split, Decode, Escape, Decimal;
    if Resolve(document, pointer) == Ok(Some(v)) {
      var parts := Split(pointer);
      SplitParts(pointer);
      assert parts[0] == [] by {
        SplitAtSlash(pointer);
      }
      assert pointer == Slashed(parts[1..]);
      var path := PathOf(document, parts[1..]);
      EncodeIsSlashed(path);
      PlainRoot(parts[1]);
      assert Token(path[0]) == parts[1];
      if path[0].Field? {
        DecodeEscape(path[0].name);
      }
    }
    if path: seq<Step> :| && path != [] && path[0].Field? && PermittedRoot(path[0].name)
                          && pointer == Encode(path) && At(document, path) == Some(v) {
      ResolveInvertsEncode(document, path);
    }
  }

  lemma SplitAtSlash(s: string)
    requires s != [] && s[0] == '/'
    ensures Split(s)[0] == []
  {
  }

  /** The segment cannot be followed from here: it is badly escaped, or no index although this is an array. */
  ghost predicate Unfollowable(node: Json, segment: string) {
    || !ValidEscapes(segment)
    || (node.JArr? && !exists n: nat :: segment == Decimal(n))
  }

  lemma UnfollowableIff(node: Json, segment: string)
    requires NoSlash(segment)
    ensures Unfollowable(node, segment) <==> Decode(segment).Err? || Descend(node, Decode(segment).value).Err?
  {
    hide Decimal, ParseNat, TwoPass;
    DecodeIsTwoPass(segment);
    if ValidEscapes(segment) && node.JArr? {
      var decoded := Decode(segment).value;
      if CanonicalIndex(decoded) {
        EscapeDecoded(segment);
        DecimalOfIndex(decoded);
        PlainDigits(decoded);
        assert segment == Decimal(ParseNat(decoded));
      }
      if n: nat :| segment == Decimal(n) {
        CanonicalDecimal(n);
      }
    }
  }

  /** Following segments fails exactly if all before some segment lead to a node from which it cannot be followed. */
  lemma {:induction false} FollowingFailsIff(json: Json, segments: seq<string>)
    requires forall k :: 0 <= k < |segments| ==> NoSlash(segments[k])
    ensures ResolveFrom(json, segments).Err?
            <==> exists k, node :: 0 <= k < |segments| && ResolveFrom(json, segments[..k]) == Ok(Some(node))
                                   && Unfollowable(node, segments[k])
    decreases |segments|
  {
    hide Decode, Descend, Unfollowable;
    if segments != [] {
      UnfollowableIff(json, segments[0]);
      assert segments[..0] == [] && ResolveFrom(json, []) == Ok(Some(json));
      if Decode(segments[0]).Ok? && Descend(json, Decode(segments[0]).value).Ok? {
        var next := Descend(json, Decode(segments[0]).value).value;
        var rest := segments[1..];
        forall k | 0 <= k < |rest|
          ensures ResolveFrom(json, segments[..k + 1])
                  == if next.Some? then ResolveFrom(next.value, rest[..k]) else Ok(None)
        {
          assert segments[..k + 1][1..] == rest[..k];
        }
        if next.Some? {
          FollowingFailsIff(next.value, rest);
          if k, node :| 0 <= k < |rest| && ResolveFrom(next.value, rest[..k]) == Ok(Some(node))
                        && Unfollowable(node, rest[k]) {
            assert ResolveFrom(json, segments[..k + 1]) == Ok(Some(node)) && segments[k + 1] == rest[k];
          }
        }
        if k, node :| 0 <= k < |segments| && ResolveFrom(json, segments[..k]) == Ok(Some(node))
                      && Unfollowable(node, segments[k]) {
          if k > 0 {
            assert ResolveFrom(json, segments[..(k - 1) + 1]) == Ok(Some(node)) && rest[k - 1] == segments[k];
          }
        }
      }
    }
  }

  /** A pointer is refused exactly if it is not absolute, its root is not permitted, or a segment cannot be followed
      from where the segments before it lead; where it merely leads to nothing, it is not refused. */
  lemma RefusedIff(document: Json, pointer: string)
    ensures var segments := Split(pointer)[1..];
            Resolve(document, pointer).Err?
            <==> || pointer == [] || pointer[0] != '/' || segments == []
                 || segments[0] !in {"actor", "action", "resource", "context"}
                 || exists k, node :: 0 <= k < |segments| && ResolveFrom(document, segments[..k]) == Ok(Some(node))
                                      && Unfollowable(node, segments[k])
  {
    hide Split, ResolveFrom, Unfollowable;
    SplitParts(pointer);
    FollowingFailsIff(document, Split(pointer)[1..]);
  }
}

/** The path canonicaliser of the route inventory: every parameter "{name}" becomes "{}". */
module PathNames {

  predicate BraceFree(s: string) {
    forall k :: 0 <= k < |s| ==> s[k] != '{' && s[k] != '}'
  }

  /** Where the first '}' of the string is, or its length. */
  function Close(s: string): (j: nat)
    ensures j <= |s| && (j < |s| ==> s[j] == '}')
    ensures forall k :: 0 <= k < j ==> s[k] != '}'
  {
    if s == [] || s[0] == '}' then 0 else 1 + Close(s[1..])
  }

  /** A text the pattern `\{[^}]+\}` matches as a whole. */
  predicate IsParameter(m: string) {
    |m| > 2 && m[0] == '{' && Close(m) == |m| - 1
  }

  /** The scanner's test for a match at the start of the string. */
  predicate StartsParameter(s: string) {
    s != [] && s[0] == '{' && 1 < Close(s) < |s|
  }

  /** `re.sub(r"\{[^}]+\}", "{}", s)`: leftmost matches, scanned left to right. */
  function Canonical(s: string): string {
    if s == [] then []
    else if StartsParameter(s) then "{}" + Canonical(s[Close(s) + 1..])
    else [s[0]] + Canonical(s[1..])
  }

  /** The scanner finds a match exactly where the pattern has one, and there is only one choice. */
  lemma {:induction false} MatchAtStartIff(s: string)
    ensures StartsParameter(s) <==> exists j :: 0 <= j <= |s| && IsParameter(s[..j])
    ensures forall j :: 0 <= j <= |s| && IsParameter(s[..j]) ==> j == Close(s) + 1
  {
    if StartsParameter(s) {
      assert IsParameter(s[..Close(s) + 1]) by {
        CloseOfPrefix(s, Close(s) + 1);
      }
    }
    forall j | 0 <= j <= |s| && IsParameter(s[..j])
      ensures j == Close(s) + 1 && StartsParameter(s)
    {
      CloseOfPrefix(s, j);
    }
  }

  lemma {:induction false} CloseOfPrefix(s: string, j: nat)
    requires j <= |s|
    ensures Close(s[..j]) == if Close(s) < j then Close(s) else j
  {
    var c := Close(s[..j]);
    assert forall k :: 0 <= k < j ==> s[..j][k] == s[k];
  }

  // ---------------------------------------------------------------- idempotence

  lemma {:induction false} NoCloseUnchanged(s: string)
    requires forall k :: 0 <= k < |s| ==> s[k] != '}'
    ensures Canonical(s) == s
  {
    if s != [] {
      NoCloseUnchanged(s[1..]);
    }
  }

  lemma {:induction false} CanonicalAfterEmpty(u: string)
    ensures Canonical("{}" + u) == "{}" + Canonical(u)
  {
  }

  /** Canonicalising twice is canonicalising once, on every string. */
  lemma {:induction false} CanonicalIdempotent(s: string)
    ensures Canonical(Canonical(s)) == Canonical(s)
  {
    if s == [] {
    } else if StartsParameter(s) {
      var rest := s[Close(s) + 1..];
      CanonicalIdempotent(rest);
      CanonicalAfterEmpty(Canonical(rest));
    } else {
      CanonicalIdempotent(s[1..]);
      var u := Canonical(s[1..]);
      assert Canonical(s) == [s[0]] + u && ([s[0]] + u)[1..] == u;
      if s[0] == '{' {
        if Close(s) == |s| {
          NoCloseUnchanged(s);
        } else {
          assert Close(s) == 1 && s[1] == '}';
          assert s[1..][0] == '}' && u[0] == '}';
        }
      }
    }
  }

  // ---------------------------------------------------------------- what is merged

  /** A text that canonicalises to an empty pair of braces: a parameter, or that pair itself. */
  predicate IsFilling(m: string) {
    m == "{}" || IsParameter(m)
  }

  /** The two strings split into the same characters, with fillings in the same places. */
  predicate Alike(s: string, t: string)
    decreases |s|
  {
    || (s == [] && t == [])
    || (s != [] && t != [] && s[0] == t[0] && Alike(s[1..], t[1..]))
    || exists m, n :: 0 < m <= |s| && 0 < n <= |t| && AlikeAfter(s, t, m, n)
  }

  predicate AlikeAfter(s: string, t: string, m: nat, n: nat)
    requires 0 < m <= |s| && n <= |t|
    decreases |s|, 0
  {
    IsFilling(s[..m]) && IsFilling(t[..n]) && Alike(s[m..], t[n..])
  }

  lemma {:induction false} CanonicalOfFilling(s: string, n: nat)
    requires n <= |s| && IsFilling(s[..n])
    ensures Canonical(s) == "{}" + Canonical(s[n..])
  {
    if s[..n] == "{}" {
      assert s == "{}" + s[2..];
      CanonicalAfterEmpty(s[2..]);
    } else {
      MatchAtStartIff(s);
    }
  }

  /** A canonical form that starts with an empty pair comes from a string that starts with a
      filling. */
  lemma {:induction false} PairComesFromFilling(s: string) returns (n: nat)
    requires "{}" <= Canonical(s)
    ensures 0 < n <= |s| && IsFilling(s[..n]) && Canonical(s[n..]) == Canonical(s)[2..]
  {
    if StartsParameter(s) {
      n := Close(s) + 1;
      CloseOfPrefix(s, n);
    } else {
      n := 2;
      assert Canonical(s)[0] == s[0] && Canonical(s)[1..] == Canonical(s[1..]);
      assert Canonical(s[1..])[0] == '}' && s[1] == '}';
      assert s[..2] == "{}";
      CanonicalOfFilling(s, 2);
    }
  }

  /** What follows the first '}' is canonicalised by itself. */
  lemma {:induction false} CloseSplits(s: string)
    requires Close(s) < |s|
    ensures Close(Canonical(s)) < |Canonical(s)|
    ensures Canonical(s)[Close(Canonical(s)) + 1..] == Canonical(s[Close(s) + 1..])
  {
    var u := Canonical(s);
    if StartsParameter(s) {
      assert u == "{}" + Canonical(s[Close(s) + 1..]) && u[1] == '}';
      assert Close(u) == 1;
    } else {
      CopiedAt(s);
      if s[0] != '}' {
        CloseSplits(s[1..]);
        CloseAfterFirst(s);
        CloseAfterFirst(u);
      }
    }
  }

  lemma {:induction false} CopiedAt(s: string)
    requires s != [] && !StartsParameter(s)
    ensures Canonical(s) != [] && Canonical(s)[0] == s[0] && Canonical(s)[1..] == Canonical(s[1..])
  {
  }

  lemma {:induction false} CloseAfterFirst(s: string)
    requires s != [] && s[0] != '}'
    ensures Close(s) == 1 + Close(s[1..])
    ensures Close(s) < |s| ==> s[Close(s) + 1..] == s[1..][Close(s[1..]) + 1..]
  {
  }

  lemma {:induction false} CanonicalBehind(c: char, s: string)
    ensures Canonical([c] + s) ==
            if c == '{' && 0 < Close(s) < |s| then "{}" + Canonical(s[Close(s) + 1..]) else [c] + Canonical(s)
  {
    assert ([c] + s)[1..] == s;
    if c == '{' && Close(s) < |s| {
      assert ([c] + s)[Close(s) + 2..] == s[Close(s) + 1..];
    }
  }

  /** Strings that are canonically equal stay so behind a common first character. */
  lemma {:induction false} CanonicalCons(c: char, s: string, t: string)
    requires Canonical(s) == Canonical(t)
    ensures Canonical([c] + s) == Canonical([c] + t)
  {
    CanonicalBehind(c, s);
    CanonicalBehind(c, t);
    OpenComesFromOpen(s, t);
    if Close(s) < |s| {
      CloseSplits(s);
      CloseSplits(t);
    }
  }

  lemma {:induction false} OpenComesFromOpen(s: string, t: string)
    requires Canonical(s) == Canonical(t)
    ensures Close(s) < |s| <==> Close(t) < |t|
    ensures Close(s) < |s| ==> (Close(s) == 0 <==> Close(t) == 0)
  {
    if Close(s) < |s| {
      CloseSplits(s);
    } else {
      NoCloseUnchanged(s);
    }
    if Close(t) < |t| {
      CloseSplits(t);
    } else {
      NoCloseUnchanged(t);
    }
  }

  lemma {:induction false} AlikeIsEqual(s: string, t: string)
    requires Alike(s, t)
    ensures Canonical(s) == Canonical(t)
    decreases |s|
  {
    if s != [] && t != [] && s[0] == t[0] && Alike(s[1..], t[1..]) {
      AlikeIsEqual(s[1..], t[1..]);
      CanonicalCons(s[0], s[1..], t[1..]);
      assert s == [s[0]] + s[1..] && t == [t[0]] + t[1..];
    } else if s != [] {
      var m, n :| 0 < m <= |s| && 0 < n <= |t| && AlikeAfter(s, t, m, n);
      AlikeIsEqual(s[m..], t[n..]);
      CanonicalOfFilling(s, m);
      CanonicalOfFilling(t, n);
    }
  }

  lemma {:induction false} EqualIsAlike(s: string, t: string)
    requires Canonical(s) == Canonical(t)
    ensures Alike(s, t)
    decreases |s|
  {
    if s != [] && t != [] {
      if "{}" <= Canonical(s) {
        var m := PairComesFromFilling(s);
        var n := PairComesFromFilling(t);
        EqualIsAlike(s[m..], t[n..]);
        assert AlikeAfter(s, t, m, n);
      } else {
        CopiedFirst(s);
        CopiedFirst(t);
        EqualIsAlike(s[1..], t[1..]);
      }
    }
  }

  lemma {:induction false} CopiedFirst(s: string)
    requires s != [] && !("{}" <= Canonical(s))
    ensures Canonical(s) == [s[0]] + Canonical(s[1..])
    ensures Canonical(s)[0] == s[0] && Canonical(s)[1..] == Canonical(s[1..])
  {
  }

  /** Two strings are canonically equal if and only if they split into the same characters, with a
      parameter or an empty pair of braces in the same places. */
  lemma {:induction false} CanonicalEqualIff(s: string, t: string)
    ensures Canonical(s) == Canonical(t) <==> Alike(s, t)
  {
    if Canonical(s) == Canonical(t) {
      EqualIsAlike(s, t);
    }
    if Alike(s, t) {
      AlikeIsEqual(s, t);
    }
  }

  /** Merged with a parameter are exactly the parameters and the literal empty pair of braces. */
  lemma {:induction false} MergedWithParameterIff(s: string, parameter: string)
    requires IsParameter(parameter)
    ensures Canonical(s) == Canonical(parameter) <==> IsFilling(s)
  {
    assert parameter[..|parameter|] == parameter && s[..|s|] == s;
    CanonicalOfFilling(parameter, |parameter|);
    if IsFilling(s) {
      CanonicalOfFilling(s, |s|);
    }
    if Canonical(s) == "{}" {
      var n := PairComesFromFilling(s);
      assert s[n..] == [] ==> s == s[..n];
    }
  }

  // ---------------------------------------------------------------- structured paths

  /** A path template as a router declares it. */
  datatype Segment = Literal(text: string) | Param(name: string)

  predicate Declared(segments: seq<Segment>) {
    forall k :: 0 <= k < |segments| ==> DeclaredSegment(segments[k])
  }

  predicate DeclaredSegment(segment: Segment) {
    match segment
    case Literal(text) => BraceFree(text)
    case Param(name) => name != "" && BraceFree(name)
  }

  function Render(segments: seq<Segment>): string {
    if segments == [] then []
    else (match segments[0] case Literal(text) => text case Param(name) => "{" + name + "}") + Render(segments[1..])
  }

  lemma {:induction false} DeclaredParts(segments: seq<Segment>)
    requires Declared(segments) && segments != []
    ensures DeclaredSegment(segments[0]) && Declared(segments[1..])
  {
    assert forall k :: 0 <= k < |segments[1..]| ==> segments[1..][k] == segments[k + 1];
  }

  lemma {:induction false} CanonicalOfLiteral(text: string, u: string)
    requires BraceFree(text)
    ensures Canonical(text + u) == text + Canonical(u)
  {
    if text == [] {
      assert text + u == u;
    } else {
      assert (text + u)[1..] == text[1..] + u;
      CanonicalOfLiteral(text[1..], u);
    }
  }

  /** A declared parameter is one to the pattern. */
  lemma {:induction false} CanonicalOfParam(name: string, u: string)
    requires name != "" && BraceFree(name)
    ensures Canonical("{" + name + "}" + u) == "{}" + Canonical(u)
  {
    var s := "{" + name + "}" + u;
    assert forall k :: 0 <= k < |name| ==> s[k + 1] == name[k];
    assert s[|name| + 1] == '}';
    assert Close(s) == |name| + 1;
    assert s[|name| + 2..] == u;
  }

  /** The string has the literals of the template and, for each parameter, some parameter or an
      empty pair of braces. */
  predicate Filled(s: string, segments: seq<Segment>)
    decreases |segments|
  {
    if segments == [] then s == []
    else match segments[0]
         case Literal(text) => text <= s && Filled(s[|text|..], segments[1..])
         case Param(_) => exists n :: 0 <= n <= |s| && IsFilling(s[..n]) && Filled(s[n..], segments[1..])
  }

  lemma {:induction false} LiteralIsKept(text: string, s: string, rest: string)
    requires BraceFree(text)
    ensures Canonical(s) == text + rest <==> text <= s && Canonical(s[|text|..]) == rest
  {
    if text <= s {
      assert s == text + s[|text|..];
      CanonicalOfLiteral(text, s[|text|..]);
      assert (text + rest)[|text|..] == rest;
      assert Canonical(s)[|text|..] == Canonical(s[|text|..]);
    }
    if Canonical(s) == text + rest {
      LiteralIsFirst(text, s);
    }
  }

  lemma {:induction false} LiteralIsFirst(text: string, s: string)
    requires BraceFree(text) && text <= Canonical(s)
    ensures text <= s
  {
    if text != [] {
      assert Canonical(s)[0] == text[0] && s != [];
      CopiedFirst(s);
      assert text[1..] <= Canonical(s)[1..];
      LiteralIsFirst(text[1..], s[1..]);
      assert s == [s[0]] + s[1..] && text == [text[0]] + text[1..];
    }
  }

  lemma {:induction false} FillingFirstIff(s: string, rest: string)
    ensures Canonical(s) == "{}" + rest <==>
            exists n :: 0 <= n <= |s| && IsFilling(s[..n]) && Canonical(s[n..]) == rest
  {
    if Canonical(s) == "{}" + rest {
      var n := PairComesFromFilling(s);
      assert Canonical(s)[2..] == rest;
    }
    if n :| 0 <= n <= |s| && IsFilling(s[..n]) && Canonical(s[n..]) == rest {
      CanonicalOfFilling(s, n);
    }
  }

  /** A string is canonically equal to a declared template if and only if it has the template's
      literals and, for each of its parameters, a parameter or an empty pair of braces. */
  lemma {:induction false} MergedWithDeclaredIff(s: string, segments: seq<Segment>)
    requires Declared(segments)
    ensures Canonical(s) == Canonical(Render(segments)) <==> Filled(s, segments)
    decreases |segments|
  {
    if segments != [] {
      var rest := segments[1..];
      DeclaredParts(segments);
      match segments[0]
      case Literal(text) =>
        CanonicalOfLiteral(text, Render(rest));
        LiteralIsKept(text, s, Canonical(Render(rest)));
        if text <= s {
          MergedWithDeclaredIff(s[|text|..], rest);
        }
      case Param(name) =>
        CanonicalOfParam(name, Render(rest));
        FillingFirstIff(s, Canonical(Render(rest)));
        forall n | 0 <= n <= |s|
          ensures Canonical(s[n..]) == Canonical(Render(rest)) <==> Filled(s[n..], rest)
        {
          MergedWithDeclaredIff(s[n..], rest);
        }
    }
  }

  // ---------------------------------------------------------------- templates without names

  /** A template without its parameter names: characters and holes. */
  datatype Token = Plain(c: char) | Hole

  /** Adjacent literals run together. */
  function Erase(segments: seq<Segment>): seq<Token> {
    if segments == [] then []
    else (match segments[0] case Literal(text) => Plains(text) case Param(_) => [Hole]) + Erase(segments[1..])
  }

  function Plains(text: string): (tokens: seq<Token>)
    ensures |tokens| == |text| && forall k :: 0 <= k < |text| ==> tokens[k] == Plain(text[k])
  {
    seq(|text|, k requires 0 <= k < |text| => Plain(text[k]))
  }

  function Show(tokens: seq<Token>): string {
    if tokens == [] then []
    else (match tokens[0] case Plain(c) => [c] case Hole => "{}") + Show(tokens[1..])
  }

  lemma {:induction false} ShowOfPlains(text: string, tokens: seq<Token>)
    ensures Show(Plains(text) + tokens) == text + Show(tokens)
  {
    if text == [] {
      assert Plains(text) + tokens == tokens;
    } else {
      assert (Plains(text) + tokens)[1..] == Plains(text[1..]) + tokens;
      ShowOfPlains(text[1..], tokens);
    }
  }

  lemma {:induction false} CanonicalOfRender(segments: seq<Segment>)
    requires Declared(segments)
    ensures Canonical(Render(segments)) == Show(Erase(segments))
    ensures Plain('{') !in Erase(segments)
  {
    if segments != [] {
      var rest := segments[1..];
      DeclaredParts(segments);
      CanonicalOfRender(rest);
      match segments[0]
      case Literal(text) =>
        CanonicalOfLiteral(text, Render(rest));
        ShowOfPlains(text, Erase(rest));
      case Param(name) =>
        CanonicalOfParam(name, Render(rest));
        assert Erase(segments)[1..] == Erase(rest);
    }
  }

  lemma {:induction false} ShowInjective(a: seq<Token>, b: seq<Token>)
    requires Plain('{') !in a && Plain('{') !in b && Show(a) == Show(b)
    ensures a == b
  {
    if a == [] || b == [] {
      assert |Show(a)| == |Show(b)|;
    } else {
      assert a[0] in a && b[0] in b && Show(a)[0] == Show(b)[0];
      assert Show(a[1..]) == Show(a)[if a[0].Hole? then 2 else 1..];
      assert Show(b[1..]) == Show(b)[if b[0].Hole? then 2 else 1..];
      ShowInjective(a[1..], b[1..]);
      assert a == [a[0]] + a[1..] && b == [b[0]] + b[1..];
    }
  }

  /** Two declared paths are canonically equal if and only if they are equal once the parameter
      names are erased: renaming parameters never matters, and nothing else is merged. */
  lemma {:induction false} DeclaredEqualIff(a: seq<Segment>, b: seq<Segment>)
    requires Declared(a) && Declared(b)
    ensures Canonical(Render(a)) == Canonical(Render(b)) <==> Erase(a) == Erase(b)
  {
    CanonicalOfRender(a);
    CanonicalOfRender(b);
    if Canonical(Render(a)) == Canonical(Render(b)) {
      ShowInjective(Erase(a), Erase(b));
    }
  }
}

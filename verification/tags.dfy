/** The `aero` field tag: a comma-separated list of tokens, each trimmed of
    white space. `meta`, `omit` and `omitempty` are flags; any other token is
    the name (of a bin, or of a metadata slot when `meta` is set). */
module Tags {
  import opened Wrappers
  import opened Text
  import opened Errors

  /** The parsed directive of one field. */
  datatype Tag = Tag(meta: bool, omit: bool, omitempty: bool, name: string)

  const MetaToken := "meta"
  const OmitToken := "omit"
  const OmitEmptyToken := "omitempty"

  /** The metadata names a `meta` directive can carry. */
  const Generation := "generation"
  const Expiration := "expiration"
  const Namespace := "namespace"
  const SetName := "set_name"
  const Digest := "digest"
  const UserKey := "user_key"

  /** The metadata names the codec knows; any other name after `meta` is
      ignored. */
  const MetaNames: set<string> := {Generation, Expiration, Namespace, SetName, Digest, UserKey}

  predicate IsReserved(tok: string) {
    tok == MetaToken || tok == OmitToken || tok == OmitEmptyToken
  }

  /** The trimmed comma-separated tokens of a tag. */
  function Tokens(s: string): (toks: seq<string>)
    ensures |toks| == |Split(s, ',')| >= 1
    ensures forall i :: 0 <= i < |toks| ==> toks[i] == TrimSpace(Split(s, ',')[i])
  {
    var parts := Split(s, ',');
    seq(|parts|, i requires 0 <= i < |parts| => TrimSpace(parts[i]))
  }

  /** The free-form (non-reserved) tokens, in order. */
  function NameTokens(toks: seq<string>): seq<string> {
    if |toks| == 0 then []
    else (if IsReserved(toks[0]) then [] else [toks[0]]) + NameTokens(toks[1..])
  }

  /** At most one free-form token carries text, and it comes last: every
      earlier free-form token is empty. */
  predicate NamesOk(ns: seq<string>) {
    forall i :: 0 <= i < |ns| - 1 ==> ns[i] == ""
  }

  function LastName(ns: seq<string>): string {
    if |ns| == 0 then "" else ns[|ns| - 1]
  }

  /** One token applied to the directive built so far. */
  function Step(acc: Tag, tok: string, s: string): Result<Tag, Error> {
    if tok == MetaToken then Ok(acc.(meta := true))
    else if tok == OmitEmptyToken then Ok(acc.(omitempty := true))
    else if tok == OmitToken then Ok(acc.(omit := true))
    else if acc.name == "" then Ok(acc.(name := tok))
    else Err(InvalidTag(s))
  }

  /** The tokens applied left to right. */
  function Fold(toks: seq<string>, acc: Tag, s: string): (r: Result<Tag, Error>)
    ensures r.Err? ==> r.error == InvalidTag(s)
  {
    if |toks| == 0 then Ok(acc)
    else
      var a :- Step(acc, toks[0], s);
      Fold(toks[1..], a, s)
  }

  /** Prepending a token to the list of free-form tokens. */
  lemma NamesOkCons(t: string, ns: seq<string>)
    ensures NamesOk([t] + ns) <==> (|ns| == 0 || (t == "" && NamesOk(ns)))
    ensures |ns| > 0 ==> LastName([t] + ns) == LastName(ns)
  {
    var ts := [t] + ns;
    if |ns| > 0 && NamesOk(ts) {
      assert ts[0] == t;
      forall i | 0 <= i < |ns| - 1 ensures ns[i] == "" {
        assert ts[i + 1] == ns[i];
      }
    }
    if |ns| > 0 && t == "" && NamesOk(ns) {
      forall i | 0 <= i < |ts| - 1 ensures ts[i] == "" {
        if i > 0 { assert ts[i] == ns[i - 1]; }
      }
    }
  }

  /** Each flag ends up set exactly when it was set already or its token
      occurs. */
  lemma {:induction false} FoldFlags(toks: seq<string>, acc: Tag, s: string)
    ensures var r := Fold(toks, acc, s);
      && (r.Ok? ==> (r.value.meta <==> acc.meta || MetaToken in toks))
      && (r.Ok? ==> (r.value.omit <==> acc.omit || OmitToken in toks))
      && (r.Ok? ==> (r.value.omitempty <==> acc.omitempty || OmitEmptyToken in toks))
  {
    if |toks| > 0 {
      assert toks == [toks[0]] + toks[1..];
      var st := Step(acc, toks[0], s);
      if st.Ok? {
        FoldFlags(toks[1..], st.value, s);
      }
    }
  }

  /** Starting from a directive without a name, the fold succeeds exactly
      when no free-form token follows a non-empty one, and the name is then
      the last free-form token; from a named directive it succeeds exactly
      when there is no free-form token. */
  lemma {:induction false} FoldNames(toks: seq<string>, acc: Tag, s: string)
    ensures var r := Fold(toks, acc, s); var ns := NameTokens(toks);
      && (r.Ok? <==> (if acc.name != "" then |ns| == 0 else NamesOk(ns)))
      && (r.Ok? ==> r.value.name == (if acc.name != "" then acc.name else LastName(ns)))
  {
    if |toks| > 0 {
      var t := toks[0];
      var rest := toks[1..];
      if IsReserved(t) {
        assert NameTokens(toks) == NameTokens(rest);
        FoldNames(rest, Step(acc, t, s).value, s);
      } else if acc.name == "" {
        FoldNames(rest, acc.(name := t), s);
        NamesOkCons(t, NameTokens(rest));
      }
    }
  }

  /** Parses a non-empty tag. A lone `meta` (no name) is read as an
      ordinary bin called "meta", so a successful parse never yields a
      metadata directive without a name. */
  function ParseTag(s: string): (r: Result<Tag, Error>)
    ensures r.Ok? <==> NamesOk(NameTokens(Tokens(s)))
    ensures r.Err? ==> r.error == InvalidTag(s)
    ensures r.Ok? ==> (r.value.omit <==> OmitToken in Tokens(s))
    ensures r.Ok? ==> (r.value.omitempty <==> OmitEmptyToken in Tokens(s))
    ensures r.Ok? ==>
      var n := LastName(NameTokens(Tokens(s)));
      && (r.value.meta <==> MetaToken in Tokens(s) && n != "")
      && r.value.name == (if MetaToken in Tokens(s) && n == "" then MetaToken else n)
    ensures r.Ok? ==> !(r.value.meta && r.value.name == "")
  {
    FoldFlags(Tokens(s), Tag(false, false, false, ""), s);
    FoldNames(Tokens(s), Tag(false, false, false, ""), s);
    var parsed :- Fold(Tokens(s), Tag(false, false, false, ""), s);
    if parsed.meta && parsed.name == "" then
      Ok(parsed.(meta := false, name := MetaToken))
    else
      Ok(parsed)
  }

  /** The tokens of a tag, from any cut of it into comma-free parts. */
  lemma {:induction false} TokensOf(s: string, parts: seq<string>, toks: seq<string>)
    requires |parts| >= 1 && Join(parts, ',') == s
    requires forall i :: 0 <= i < |parts| ==> ',' !in parts[i]
    requires |toks| == |parts|
    requires forall i :: 0 <= i < |parts| ==> TrimSpace(parts[i]) == toks[i]
    ensures Tokens(s) == toks
  {
    SplitUnique(s, ',', parts);
  }

  /** A lone leading blank is trimmed away. */
  lemma TrimLeadingBlank(s: string)
    requires s != "" && !IsSpace(s[0]) && !IsSpace(s[|s| - 1])
    ensures TrimSpace([' '] + s) == s
  {
    assert LeadingSpace([' '] + s) == 1 by {
      assert ([' '] + s)[1..] == s;
    }
    assert ([' '] + s)[1..] == s;
    TrimSpaceNoop(s);
  }

  /** A tag whose comma-separated parts carry no surrounding white space
      has those parts as its tokens. */
  lemma {:induction false} PlainTokens(s: string, parts: seq<string>)
    requires |parts| >= 1 && Join(parts, ',') == s
    requires forall i :: 0 <= i < |parts| ==> ',' !in parts[i]
    requires forall i :: 0 <= i < |parts| ==>
      parts[i] == "" || (!IsSpace(parts[i][0]) && !IsSpace(parts[i][|parts[i]| - 1]))
    ensures Tokens(s) == parts
  {
    forall i | 0 <= i < |parts| ensures TrimSpace(parts[i]) == parts[i] {
      TrimSpaceNoop(parts[i]);
    }
    TokensOf(s, parts, parts);
  }

  lemma OmitEmptyTrimmed()
    ensures TrimSpace(" omitempty") == "omitempty"
  {
    TrimLeadingBlank("omitempty");
    assert " omitempty" == [' '] + "omitempty";
  }

  /** The tokens of a tag of two comma-free parts. */
  lemma TwoPartTokens(a: string, b: string)
    requires ',' !in a && ',' !in b
    ensures Tokens(a + [','] + b) == [TrimSpace(a), TrimSpace(b)]
  {
    var parts := [a, b];
    assert parts[1..] == [b];
    assert Join(parts, ',') == a + [','] + b;
    TokensOf(a + [','] + b, parts, [TrimSpace(a), TrimSpace(b)]);
  }

  lemma OffsetOmitEmptyTokens()
    ensures Tokens("offset, omitempty") == ["offset", "omitempty"]
  {
    OmitEmptyTrimmed();
    TrimSpaceNoop("offset");
    assert "offset, omitempty" == "offset" + [','] + " omitempty";
    TwoPartTokens("offset", " omitempty");
  }

  /** A lone name without commas or surrounding white space, other than
      the three directives, is a plain bin name. */
  lemma ParseTagPlainName(n: string)
    requires n != "" && ',' !in n && !IsSpace(n[0]) && !IsSpace(n[|n| - 1]) && !IsReserved(n)
    ensures ParseTag(n) == Ok(Tag(false, false, false, n))
  {
    PlainTokens(n, [n]);
    assert Fold([n], Tag(false, false, false, ""), n) == Ok(Tag(false, false, false, n));
  }

  /** The tags of the library's own containers and of its test types. */
  lemma ParseTagOmitEmptyExample()
    ensures ParseTag("offset, omitempty") == Ok(Tag(false, false, true, "offset"))
  {
    var s := "offset, omitempty";
    OffsetOmitEmptyTokens();
    assert Fold(["offset", "omitempty"], Tag(false, false, false, ""), s)
        == Ok(Tag(false, false, true, "offset"));
  }

  lemma ParseTagMetaExample()
    ensures ParseTag("meta,generation") == Ok(Tag(true, false, false, "generation"))
  {
    var s := "meta,generation";
    PlainTokens(s, ["meta", "generation"]);
    assert Fold(["meta", "generation"], Tag(false, false, false, ""), s)
        == Ok(Tag(true, false, false, "generation"));
  }

  /** A bare `meta` names an ordinary bin. */
  lemma ParseTagBareMetaExample()
    ensures ParseTag("meta") == Ok(Tag(false, false, false, "meta"))
  {
    PlainTokens("meta", ["meta"]);
    assert Fold(["meta"], Tag(false, false, false, ""), "meta") == Ok(Tag(true, false, false, ""));
  }

  /** An empty token after the name is a second name. */
  lemma ParseTagTrailingCommaExample()
    ensures ParseTag("a,") == Err(InvalidTag("a,"))
  {
    PlainTokens("a,", ["a", ""]);
    assert Fold(["a", ""], Tag(false, false, false, ""), "a,") == Err(InvalidTag("a,"));
  }
}

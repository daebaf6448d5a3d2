/** Discovery of `go-import` meta tags in the `<head>` of an HTML page
    (gcc/libgo/go/cmd/go/internal/get/discovery.go).  The XML tokenizer is
    not part of this model: its output is the input sequence of tokens, and
    running off the end of it stands for `io.EOF`.  Case folding and field
    splitting are ASCII only. */
module Discovery {

  import opened AsciiText

  // ---------------------------------------------------------------------------
  // charsetReader

  datatype Result<T> = Ok(value: T) | Failure(error: string)

  /** Go's `%q` of a string without characters that need escaping. */
  function Quote(s: string): string
  {
    "\"" + s + "\""
  }

  /** `charsetReader(charset, input)` (discovery.go:20-27): the input itself
      for "ascii" in any letter case, otherwise an error naming the charset. */
  function CharsetReader<R>(charset: string, input: R): (r: Result<R>)
    ensures r.Ok? <==> EqualFold(charset, "ascii")
    ensures r.Ok? ==> r.value == input
    ensures r.Failure? ==>
              var p := "can't decode XML document using charset \"";
              |p| + |charset| < |r.error| && r.error[|p|..|p| + |charset|] == charset
  {
    EqualFoldIsLowerEquality(charset, "ascii");
    assert ToLower("ascii") == "ascii";
    if ToLower(charset) == "ascii" then Ok(input)
    else Failure("can't decode XML document using charset " + Quote(charset))
  }

  // ---------------------------------------------------------------------------
  // attrValue

  datatype Attr = Attr(local: string, value: string)

  /** `attrValue(attrs, name)` (discovery.go:97-104): the value of the first
      attribute whose local name equals `name` up to case, or "". */
  function AttrValue(attrs: seq<Attr>, name: string): string
  {
    if attrs == [] then ""
    else if EqualFold(attrs[0].local, name) then attrs[0].value
    else AttrValue(attrs[1..], name)
  }

  /** `attrValue` finds the first attribute with the name, up to case, and
      "" when there is none. */
  lemma {:induction false} AttrValueFirstMatch(attrs: seq<Attr>, name: string)
    ensures (forall i :: 0 <= i < |attrs| ==> !EqualFold(attrs[i].local, name)) ==>
              AttrValue(attrs, name) == ""
    ensures forall i :: 0 <= i < |attrs| && EqualFold(attrs[i].local, name) &&
                        (forall j :: 0 <= j < i ==> !EqualFold(attrs[j].local, name)) ==>
                        AttrValue(attrs, name) == attrs[i].value
  {
    if attrs != [] && !EqualFold(attrs[0].local, name) {
      var rest := attrs[1..];
      AttrValueFirstMatch(rest, name);
      assert AttrValue(attrs, name) == AttrValue(rest, name);
      forall i | 0 <= i < |attrs| && EqualFold(attrs[i].local, name) &&
                 (forall j :: 0 <= j < i ==> !EqualFold(attrs[j].local, name))
        ensures AttrValue(attrs, name) == attrs[i].value
      {
        assert rest[i - 1] == attrs[i];
        forall j | 0 <= j < i - 1
          ensures !EqualFold(rest[j].local, name)
        {
          assert rest[j] == attrs[j + 1];
        }
      }
      if forall i :: 0 <= i < |attrs| ==> !EqualFold(attrs[i].local, name) {
        forall i | 0 <= i < |rest|
          ensures !EqualFold(rest[i].local, name)
        {
          assert rest[i] == attrs[i + 1];
        }
      }
    }
  }

  // ---------------------------------------------------------------------------
  // parseMetaGoImports

  /** What the raw tokenizer yields: a start element with its attributes, an
      end element, anything else (text, comments, directives), or an error
      (`io.EOF` or another). */
  datatype Token =
    | Start(name: string, attrs: seq<Attr>)
    | End(name: string)
    | Text
    | Err(isEOF: bool)

  datatype MetaImport = MetaImport(prefix: string, vcs: string, repoRoot: string)

  datatype ModuleMode = IgnoreMod | PreferMod

  datatype Option<T> = None | Some(value: T)

  /** The tokens that end the scan (discovery.go:37-49): an error, the start
      of `body` or the end of `head`. */
  predicate Stops(t: Token)
  {
    t.Err? || (t.Start? && EqualFold(t.name, "body")) || (t.End? && EqualFold(t.name, "head"))
  }

  /** The record a token adds to the scan (discovery.go:50-69): a `meta`
      start element whose `name` is exactly "go-import" and whose `content`
      has three fields, the second of which is not "mod". */
  function Record(t: Token): Option<MetaImport>
  {
    if t.Start? && EqualFold(t.name, "meta") && AttrValue(t.attrs, "name") == "go-import" then
      var f := Fields(AttrValue(t.attrs, "content"));
      if |f| == 3 && f[1] != "mod" then Some(MetaImport(f[0], f[1], f[2])) else None
    else None
  }

  /** The records the scanning loop collects from `ts` (discovery.go:36-71). */
  function ScanImports(ts: seq<Token>): seq<MetaImport>
  {
    if ts == [] || Stops(ts[0]) then []
    else (if Record(ts[0]).Some? then [Record(ts[0]).value] else []) + ScanImports(ts[1..])
  }

  /** Whether the scan of `ts` ends with the tokenizer's error still in `err`
      (discovery.go:37-42): it stops at an error other than `io.EOF` before
      any record was collected. */
  function ScanFails(ts: seq<Token>): bool
  {
    if ts == [] then false
    else if ts[0].Err? then !ts[0].isEOF
    else if Stops(ts[0]) then false
    else Record(ts[0]).None? && ScanFails(ts[1..])
  }

  /** A `meta` tag whose `content` is three fields joined by spaces yields
      exactly those three fields, unless the second is "mod". */
  lemma MetaTagRecord(name: string, attrs: seq<Attr>, p: string, v: string, r: string)
    requires EqualFold(name, "meta") && AttrValue(attrs, "name") == "go-import"
    requires IsField(p) && IsField(v) && IsField(r)
    requires AttrValue(attrs, "content") == Join([p, v, r])
    ensures Record(Start(name, attrs)) == if v == "mod" then None else Some(MetaImport(p, v, r))
  {
    FieldsOfJoin([p, v, r]);
  }

  /** The `name` value is compared exactly: "GO-IMPORT" is not a match. */
  lemma NameValueIsCaseSensitive()
    ensures Record(Start("meta", [Attr("name", "GO-IMPORT"), Attr("content", "p git r")])) == None
  {
    var attrs := [Attr("name", "GO-IMPORT"), Attr("content", "p git r")];
    assert EqualFold(attrs[0].local, "name");
    assert AttrValue(attrs, "name") == "GO-IMPORT";
    assert "GO-IMPORT"[0] != "go-import"[0];
  }

  /** No record comes from the tokens after the scan stops. */
  lemma {:induction false} ScanStopsAt(ts: seq<Token>, k: nat)
    requires k < |ts| && Stops(ts[k])
    ensures ScanImports(ts) == ScanImports(ts[..k])
    decreases k
  {
    if k == 0 {
      assert ts[..0] == [];
    } else if !Stops(ts[0]) {
      ScanStopsAt(ts[1..], k - 1);
      assert ts[1..][..k - 1] == ts[..k][1..];
      assert ts[..k][0] == ts[0];
    } else {
      assert ts[..k][0] == ts[0];
    }
  }

  /** None of the entries is a "mod" entry. */
  predicate NoMod(ms: seq<MetaImport>)
  {
    forall i :: 0 <= i < |ms| ==> ms[i].vcs != "mod"
  }

  /** The scan never collects a "mod" record. */
  lemma {:induction false} ScanHasNoMod(ts: seq<Token>)
    ensures NoMod(ScanImports(ts))
    decreases |ts|
  {
    if ts != [] && !Stops(ts[0]) {
      ScanHasNoMod(ts[1..]);
      var head := if Record(ts[0]).Some? then [Record(ts[0]).value] else [];
      assert NoMod(head);
      assert ScanImports(ts) == head + ScanImports(ts[1..]);
    }
  }

  /** Every collected record comes from a `go-import` tag before the stop. */
  lemma {:induction false} ScanRecordsFromTokens(ts: seq<Token>, x: nat)
    requires x < |ScanImports(ts)|
    ensures exists i :: 0 <= i < |ts| && Record(ts[i]) == Some(ScanImports(ts)[x]) &&
                        forall j :: 0 <= j <= i ==> !Stops(ts[j])
    decreases |ts|
  {
    var head := if Record(ts[0]).Some? then [Record(ts[0]).value] else [];
    var rest := ScanImports(ts[1..]);
    assert ScanImports(ts) == head + rest;
    if x < |head| {
      assert Record(ts[0]) == Some(ScanImports(ts)[x]);
      assert forall j :: 0 <= j <= 0 ==> !Stops(ts[j]);
    } else {
      ScanRecordsFromTokens(ts[1..], x - |head|);
      assert ScanImports(ts)[x] == rest[x - |head|];
      var i :| 0 <= i < |ts[1..]| && Record(ts[1..][i]) == Some(rest[x - |head|]) &&
               forall j :: 0 <= j <= i ==> !Stops(ts[1..][j]);
      assert Record(ts[i + 1]) == Some(ScanImports(ts)[x]);
      forall j | 0 <= j <= i + 1
        ensures !Stops(ts[j])
      {
        if 0 < j {
          assert ts[j] == ts[1..][j - 1];
        }
      }
    }
  }

  /** The entries of `ms` whose VCS is "mod", in order. */
  function ModEntries(ms: seq<MetaImport>): (r: seq<MetaImport>)
    ensures forall m :: m in r ==> m in ms && m.vcs == "mod"
  {
    if ms == [] then []
    else ModEntries(ms[..|ms| - 1]) + (if ms[|ms| - 1].vcs == "mod" then [ms[|ms| - 1]] else [])
  }

  /** The prefixes of the "mod" entries of `ms`. */
  function Claimed(ms: seq<MetaImport>): (r: set<string>)
    ensures forall p :: p in r <==> exists m :: m in ms && m.vcs == "mod" && m.prefix == p
  {
    set m | m in ms && m.vcs == "mod" :: m.prefix
  }

  /** The entries of `ms` that are not "mod" and whose prefix is not claimed,
      in order. */
  function Unclaimed(ms: seq<MetaImport>, claimed: set<string>): (r: seq<MetaImport>)
    ensures forall m :: m in r ==> m in ms && m.vcs != "mod" && m.prefix !in claimed
  {
    if ms == [] then []
    else
      var m := ms[|ms| - 1];
      Unclaimed(ms[..|ms| - 1], claimed) + (if m.vcs != "mod" && m.prefix !in claimed then [m] else [])
  }

  /** The two passes after the scan (discovery.go:73-91): with `PreferMod`,
      the "mod" entries first and then the other entries whose prefix no
      "mod" entry claims; otherwise only the entries that are not "mod". */
  function Resolve(ms: seq<MetaImport>, mode: ModuleMode): seq<MetaImport>
  {
    if mode == PreferMod then ModEntries(ms) + Unclaimed(ms, Claimed(ms))
    else Unclaimed(ms, {})
  }

  lemma {:induction false} NoModEntries(ms: seq<MetaImport>)
    requires NoMod(ms)
    ensures ModEntries(ms) == [] && Claimed(ms) == {}
    decreases |ms|
  {
    if ms != [] {
      NoModEntries(ms[..|ms| - 1]);
      assert ModEntries(ms) == [];
      forall m | m in ms
        ensures m.vcs != "mod"
      {
        var i :| 0 <= i < |ms| && ms[i] == m;
      }
      assert forall p :: p !in Claimed(ms);
    }
  }

  lemma {:induction false} UnclaimedAll(ms: seq<MetaImport>)
    requires NoMod(ms)
    ensures Unclaimed(ms, {}) == ms
    decreases |ms|
  {
    if ms != [] {
      var n := |ms| - 1;
      assert NoMod(ms[..n]);
      UnclaimedAll(ms[..n]);
      assert ms == ms[..n] + [ms[n]];
    }
  }

  /** Without "mod" entries both passes keep the list as it is. */
  lemma ResolveWithoutMod(ms: seq<MetaImport>, mode: ModuleMode)
    requires NoMod(ms)
    ensures Resolve(ms, mode) == ms
  {
    NoModEntries(ms);
    UnclaimedAll(ms);
    assert [] + ms == ms;
  }

  /** With `PreferMod`, an entry that is not "mod" survives only when no
      "mod" entry has its prefix. */
  lemma PreferModSupersedes(ms: seq<MetaImport>, m: MetaImport)
    requires m in Resolve(ms, PreferMod) && m.vcs != "mod"
    ensures forall n :: n in ms && n.vcs == "mod" ==> n.prefix != m.prefix
  {
    assert m !in ModEntries(ms);
    assert m in Unclaimed(ms, Claimed(ms));
  }

  /** `parseMetaGoImports(r, mod)` (discovery.go:31-93) on the token stream
      of `r`.  It returns the collected records whatever the mode, and no
      error: a tokenizer error, `io.EOF` or not, only ends the scan. */
  method ParseMetaGoImports(tokens: seq<Token>, mode: ModuleMode)
    returns (list: seq<MetaImport>, err: Option<string>)
    ensures list == Resolve(ScanImports(tokens), mode)
    ensures list == ScanImports(tokens)
    ensures NoMod(list)
    ensures err == None
  {
    var imports;
    imports, err := ScanTokens(tokens);
    var have: map<string, bool>;
    list, have := ModPass(imports, mode);
    assert (set p | p in have && have[p]) == if mode == PreferMod then Claimed(imports) else {};
    list := NonModPass(imports, have, list);
    ScanHasNoMod(tokens);
    ResolveWithoutMod(imports, mode);
    err := None;
  }

  /** The scanning loop of `parseMetaGoImports` (discovery.go:36-71), with
      the error it leaves in `err`: nil after `io.EOF` or once a record has
      been found, the tokenizer's error otherwise. */
  method ScanTokens(tokens: seq<Token>) returns (imports: seq<MetaImport>, err: Option<string>)
    ensures imports == ScanImports(tokens)
    ensures err.Some? <==> ScanFails(tokens)
  {
    imports := [];
    err := None;
    var i := 0;
    while i < |tokens|
      invariant i <= |tokens|
      invariant imports + ScanImports(tokens[i..]) == ScanImports(tokens)
      invariant err == None
      invariant ScanFails(tokens) <==> imports == [] && ScanFails(tokens[i..])
    {
      var t := tokens[i];
      ScanStep(tokens, i);
      if t.Err? {
        if t.isEOF || |imports| > 0 {
          err := None;
        } else {
          err := Some("XML syntax error");
        }
        break;
      }
      if t.Start? && EqualFold(t.name, "body") {
        break;
      }
      if t.End? && EqualFold(t.name, "head") {
        break;
      }
      var r := TokenRecord(t);
      if r.Some? {
        imports := imports + [r.value];
      }
      i := i + 1;
    }
    if i < |tokens| {
      assert Stops(tokens[i..][0]);
    } else {
      assert tokens[i..] == [];
    }
  }

  /** The body of the scanning loop after the stop tests (discovery.go:50-69):
      the record a token adds, if any. */
  method TokenRecord(t: Token) returns (r: Option<MetaImport>)
    ensures r == Record(t)
  {
    r := None;
    if !t.Start? || !EqualFold(t.name, "meta") {
      return;
    }
    if AttrValue(t.attrs, "name") != "go-import" {
      return;
    }
    var f := Fields(AttrValue(t.attrs, "content"));
    if |f| == 3 {
      if f[1] == "mod" {
        return;
      }
      r := Some(MetaImport(f[0], f[1], f[2]));
    }
  }

  lemma ScanStep(ts: seq<Token>, i: nat)
    requires i < |ts|
    ensures Stops(ts[i]) ==> ScanImports(ts[i..]) == []
    ensures !Stops(ts[i]) ==>
              ScanImports(ts[i..]) ==
              (if Record(ts[i]).Some? then [Record(ts[i]).value] else []) + ScanImports(ts[i + 1..])
    ensures ts[i].Err? ==> ScanFails(ts[i..]) == !ts[i].isEOF
    ensures Stops(ts[i]) && !ts[i].Err? ==> !ScanFails(ts[i..])
    ensures !Stops(ts[i]) ==> ScanFails(ts[i..]) == (Record(ts[i]).None? && ScanFails(ts[i + 1..]))
  {
    assert ts[i..][0] == ts[i] && ts[i..][1..] == ts[i + 1..];
  }

  /** The first pass (discovery.go:74-84): with `PreferMod`, the "mod"
      entries in order, each prefix marked in `have`. */
  method ModPass(imports: seq<MetaImport>, mode: ModuleMode)
    returns (list: seq<MetaImport>, have: map<string, bool>)
    ensures mode == PreferMod ==> list == ModEntries(imports)
    ensures mode != PreferMod ==> list == []
    ensures forall p :: (p in have && have[p]) <==> mode == PreferMod && p in Claimed(imports)
  {
    list := [];
    have := map[];
    if mode == PreferMod {
      var k := 0;
      while k < |imports|
        invariant k <= |imports|
        invariant list == ModEntries(imports[..k])
        invariant forall p :: p in have <==> p in Claimed(imports[..k])
        invariant forall p :: p in have ==> have[p]
      {
        var m := imports[k];
        assert imports[..k + 1] == imports[..k] + [m];
        if m.vcs == "mod" {
          have := have[m.prefix := true];
          list := list + [m];
        }
        k := k + 1;
      }
      assert imports[..k] == imports;
    }
  }

  /** The second pass (discovery.go:86-91): the entries that are not "mod"
      and whose prefix `have` does not mark, appended to `list0`.  A missing
      key reads as false, as in a Go map. */
  method NonModPass(imports: seq<MetaImport>, have: map<string, bool>, list0: seq<MetaImport>)
    returns (list: seq<MetaImport>)
    ensures list == list0 + Unclaimed(imports, set p | p in have && have[p])
  {
    ghost var claimed := set p | p in have && have[p];
    list := list0;
    var k := 0;
    while k < |imports|
      invariant k <= |imports|
      invariant list == list0 + Unclaimed(imports[..k], claimed)
    {
      var m := imports[k];
      assert imports[..k + 1] == imports[..k] + [m];
      if m.vcs != "mod" && !(m.prefix in have && have[m.prefix]) {
        list := list + [m];
      }
      k := k + 1;
    }
    assert imports[..k] == imports;
  }
}

/** The three rewrites `integrateWebFrontend` applies to a generated backend
    when a web frontend is added: `src/routes/mod.rs` declares the new `web`
    module, `src/routes/config.rs` gets its last statement replaced by one
    that also registers the web routes, and `Cargo.toml` gains the
    `actix-files` dependency. Each rewrite is a function from the text read
    to the text written back. */
module ProjectInit {
  import opened JsString
  import Boilerplate

  // ---------------------------------------------------------------------
  // src/routes/mod.rs
  // ---------------------------------------------------------------------

  /** The `mod.rs` rewrite: the old text, a line break, `pub mod web;`. */
  function PatchRoutesModule(data: seq<char>): (r: seq<char>)
    ensures |r| == |data| + |"\npub mod web;"|
    ensures r[..|data|] == data
    ensures r[|data|..] == "\npub mod web;"
  {
    data + "\n" + "pub mod web;"
  }

  /** Read as lines, the rewritten `mod.rs` is the old file's lines followed
      by one more, `pub mod web;`. */
  lemma RoutesModuleLines(data: seq<char>)
    ensures Split(PatchRoutesModule(data), '\n') == Split(data, '\n') + ["pub mod web;"]
  {
    assert PatchRoutesModule(data) == data + ['\n'] + "pub mod web;";
    SplitAtSeparator(data, "pub mod web;", '\n');
    AddedLinesAreLines();
    SplitWithoutSeparator("pub mod web;", '\n');
  }

  /** Nothing of the old `mod.rs` is lost: different files stay different. */
  lemma RoutesModuleInjective(a: seq<char>, b: seq<char>)
    requires PatchRoutesModule(a) == PatchRoutesModule(b)
    ensures a == b
  {
  }

  /** On the `mod.rs` the generator writes, the rewrite declares the
      `example`, `config` and `web` modules, one per line, after the blank
      and indented lines the template leaves. */
  lemma RouteModPatch()
    ensures Split(PatchRoutesModule(Boilerplate.RouteMod()), '\n')
         == ["pub mod example;", "pub mod config;", "", "  ", "pub mod web;"]
  {
    RoutesModuleLines(Boilerplate.RouteMod());
  }

  // ---------------------------------------------------------------------
  // Cargo.toml
  // ---------------------------------------------------------------------

  /** The `Cargo.toml` rewrite: the old text, a line break, the dependency
      line `actix-files = "0.6.2"`. */
  function PatchCargoManifest(data: seq<char>): (r: seq<char>)
    ensures |r| == |data| + |"\nactix-files = \"0.6.2\""|
    ensures r[..|data|] == data
    ensures r[|data|..] == "\nactix-files = \"0.6.2\""
  {
    data + "\nactix-files = \"0.6.2\""
  }

  /** Read as lines, the rewritten manifest is the old one's lines followed
      by the one dependency line. */
  lemma CargoManifestLines(data: seq<char>)
    ensures Split(PatchCargoManifest(data), '\n') == Split(data, '\n') + ["actix-files = \"0.6.2\""]
  {
    var line := "actix-files = \"0.6.2\"";
    assert PatchCargoManifest(data) == data + ['\n'] + line;
    SplitAtSeparator(data, line, '\n');
    AddedLinesAreLines();
    SplitWithoutSeparator(line, '\n');
  }

  /** Nothing of the old manifest is lost: different files stay different. */
  lemma CargoManifestInjective(a: seq<char>, b: seq<char>)
    requires PatchCargoManifest(a) == PatchCargoManifest(b)
    ensures a == b
  {
  }

  /** Neither added line holds a line break. */
  lemma AddedLinesAreLines()
    ensures '\n' !in "pub mod web;"
    ensures '\n' !in "actix-files = \"0.6.2\""
  {
  }

  // ---------------------------------------------------------------------
  // src/routes/config.rs
  // ---------------------------------------------------------------------

  /** `data.substring(0, data.lastIndexOf(';')) + insert`: the text before
      the last `;`, then `insert`. With no `;`, `lastIndexOf` answers -1,
      `substring` treats it as 0, and nothing of the old text is kept. */
  function ReplaceLastStatement(data: seq<char>, insert: seq<char>): (r: seq<char>)
    ensures |r| >= |insert| && r[|r| - |insert|..] == insert
    ensures r[..|r| - |insert|] <= data
    ensures ';' !in data ==> r == insert
  {
    Substring(data, 0, LastIndexOf(data, ';')) + insert
  }

  /** The text kept is exactly the text before the last `;`: `i` is
      characterised only as a `;` with none after it. */
  lemma ReplaceAtLastSemicolon(data: seq<char>, insert: seq<char>, i: nat)
    requires i < |data| && data[i] == ';' && ';' !in data[i + 1..]
    ensures ReplaceLastStatement(data, insert) == data[..i] + insert
  {
    LastIndexOfUnique(data, ';', i);
  }

  /** Cutting at the last `;` and appending `insert` removes that one `;`. */
  lemma ReplaceSemicolons(data: seq<char>, insert: seq<char>)
    requires ';' in data
    ensures Count(ReplaceLastStatement(data, insert), ';') == Count(data, ';') - 1 + Count(insert, ';')
  {
    var i := LastIndexOf(data, ';');
    ReplaceAtLastSemicolon(data, insert, i);
    assert data == data[..i] + data[i..];
    CountAppend(data[..i], data[i..], ';');
    assert data[i..] == [';'] + data[i + 1..];
    CountAppend([';'], data[i + 1..], ';');
    CountAppend(data[..i], insert, ';');
  }

  /** A text whose last statement ends at a `;` followed by `tail` keeps
      exactly `head`. */
  lemma ReplaceStatement(head: seq<char>, tail: seq<char>, insert: seq<char>)
    requires ';' !in tail
    ensures ReplaceLastStatement(head + ";" + tail, insert) == head + insert
  {
    var t := head + ";" + tail;
    assert t[|head|] == ';';
    assert t[|head| + 1..] == tail;
    ReplaceAtLastSemicolon(t, insert, |head|);
    assert t[..|head|] == head;
  }

  /** Rewriting text that already ends in `head + ";" + tail` cuts inside
      it, at that `;`. */
  lemma ReplaceAfterStatement(front: seq<char>, head: seq<char>, tail: seq<char>, insert: seq<char>)
    requires ';' !in tail
    ensures ReplaceLastStatement(front + (head + ";" + tail), insert) == front + head + insert
  {
    assert front + (head + ";" + tail) == (front + head) + ";" + tail;
    ReplaceStatement(front + head, tail, insert);
  }

  /** `cfg.service(a);` with its statement replaced by `\n.service(b);`
      reads `cfg.service(a)\n.service(b);`. */
  lemma ReplaceLastStatementExample()
    ensures ReplaceLastStatement("cfg.service(a);", "\n.service(b);") == "cfg.service(a)\n.service(b);"
  {
    assert "cfg.service(a);" == "cfg.service(a)" + ";" + "";
    ReplaceStatement("cfg.service(a)", "", "\n.service(b);");
  }

  /** The `config.rs` rewrite: the statement closing `configure_routes`
      is replaced by `webServices()`. */
  function SpliceRouteConfig(data: seq<char>): (r: seq<char>)
    ensures |r| >= |Boilerplate.WebServices()|
    ensures r[|r| - |Boilerplate.WebServices()|..] == Boilerplate.WebServices()
    ensures r[..|r| - |Boilerplate.WebServices()|] <= data
    ensures ';' !in data ==> r == Boilerplate.WebServices()
  {
    ReplaceLastStatement(data, Boilerplate.WebServices())
  }

  /** When `data` holds a `;`, the rewrite keeps exactly the text before the
      last one. */
  lemma SpliceRouteConfigAtLastSemicolon(data: seq<char>, i: nat)
    requires i < |data| && data[i] == ';' && ';' !in data[i + 1..]
    ensures SpliceRouteConfig(data) == data[..i] + Boilerplate.WebServices()
  {
    ReplaceAtLastSemicolon(data, Boilerplate.WebServices(), i);
  }

  /** The rewrite removes one `;` and brings in the one of `webServices()`,
      so a file with a `;` keeps its number of `;`. */
  lemma SpliceRouteConfigSemicolons(data: seq<char>)
    requires ';' in data
    ensures Count(SpliceRouteConfig(data), ';')
         == Count(data, ';') - 1 + Count(Boilerplate.WebServices(), ';')
    ensures Count(SpliceRouteConfig(data), ';') == Count(data, ';')
  {
    Boilerplate.WebServicesSemicolon();
    ReplaceSemicolons(data, Boilerplate.WebServices());
  }

  /** Without a `;` the old text is discarded: every such file is rewritten
      to the same text, `webServices()` alone. */
  lemma SpliceRouteConfigWithoutSemicolon(a: seq<char>, b: seq<char>)
    requires ';' !in a && ';' !in b
    ensures SpliceRouteConfig(a) == SpliceRouteConfig(b) == Boilerplate.WebServices()
  {
  }

  /** A `configure_routes` with an empty body is replaced wholesale. */
  lemma SpliceRouteConfigDropsEmptyFunction()
    ensures SpliceRouteConfig("fn f() {}") == Boilerplate.WebServices()
  {
    assert ';' !in "fn f() {}";
  }

  /** On the `config.rs` the generator writes, the rewrite keeps everything
      up to the `)` that closes `cfg.service(` after the last example route
      (see `Boilerplate.RouteConfigHeadEnd`), and replaces the final `;` and
      closing brace. */
  lemma RouteConfigSplice()
    ensures SpliceRouteConfig(Boilerplate.RouteConfig())
         == Boilerplate.RouteConfigHead() + Boilerplate.WebServices()
  {
    ReplaceStatement(Boilerplate.RouteConfigHead(), Boilerplate.RouteConfigTail(), Boilerplate.WebServices());
  }

  /** The rewrite is not idempotent: applied to its own output it cuts inside
      `webServices()`, at its `;`, and registers the web routes a second
      time. */
  lemma SpliceRouteConfigTwice(data: seq<char>)
    ensures SpliceRouteConfig(SpliceRouteConfig(data))
         == ReplaceLastStatement(data, Boilerplate.WebServicesHead()) + Boilerplate.WebServices()
  {
    var head, tail := Boilerplate.WebServicesHead(), Boilerplate.WebServicesTail();
    var front := Substring(data, 0, LastIndexOf(data, ';'));
    assert ';' !in tail;
    ReplaceAfterStatement(front, head, tail, head + ";" + tail);
  }

  /** A checked rewrite that reports a `config.rs` without a `;` instead of
      discarding its text. */
  datatype SpliceResult = Spliced(text: seq<char>) | MissingAnchor

  function CheckedSpliceRouteConfig(data: seq<char>): (r: SpliceResult)
    ensures r.MissingAnchor? <==> ';' !in data
    ensures r.Spliced? ==> r.text == SpliceRouteConfig(data)
    ensures r.Spliced? ==> (|r.text| >= |Boilerplate.WebServices()|
                        && r.text[..|r.text| - |Boilerplate.WebServices()|] + ";" <= data)
  {
    var i := LastIndexOf(data, ';');
    if i < 0 then MissingAnchor
    else
      SpliceRouteConfigAtLastSemicolon(data, i);
      assert data[..i] + ";" == data[..i + 1];
      Spliced(data[..i] + Boilerplate.WebServices())
  }

  /** On the generated `config.rs` the checked rewrite succeeds with the
      same text as the faithful one. */
  lemma RouteConfigCheckedSplice()
    ensures CheckedSpliceRouteConfig(Boilerplate.RouteConfig())
         == Spliced(Boilerplate.RouteConfigHead() + Boilerplate.WebServices())
  {
    var head, tail := Boilerplate.RouteConfigHead(), Boilerplate.RouteConfigTail();
    HasSemicolon(head, tail);
    RouteConfigSplice();
    var r := CheckedSpliceRouteConfig(Boilerplate.RouteConfig());
    assert r.Spliced? && r.text == SpliceRouteConfig(Boilerplate.RouteConfig());
  }

  lemma HasSemicolon(head: seq<char>, tail: seq<char>)
    ensures ';' in head + ";" + tail
  {
    assert (head + ";" + tail)[|head|] == ';';
  }
}

/** The generated Rust text the patches act on. Only the templates the web
    frontend patch touches are written out, line by line as they appear in
    the generator; the others are literal text with the project name
    substituted in. */
module Boilerplate {
  import opened JsString
  import Util

  /** The name of the generated error type, `${TitleCaseName}Error`, as
      `errorHandling`, `exampleRoute` and `webRoutes` write it. */
  function ErrorTypeName(projName: seq<char>): (r: seq<char>)
    ensures |r| == |projName| - Count(projName, '_') + 5
    ensures r[|r| - 5..] == "Error"
    ensures '_' in projName ==> '_' !in r[..|r| - 5]
  {
    Util.SnakeCaseToTitleCase(projName) + "Error"
  }

  /** `routeConfig()`: the initial `src/routes/config.rs`. Its last `;`
      ends the `cfg.service(...)` call: the text is `RouteConfigHead()`, one
      `;`, and the closing brace with trailing whitespace, which holds no
      `;`. */
  function RouteConfig(): (r: seq<char>)
    ensures r == RouteConfigHead() + ";" + RouteConfigTail()
    ensures ';' !in RouteConfigTail()
  {
    ClosingLines(RouteConfigOpening() + EchoRouteLine());
    RouteConfigOpening() + EchoRouteLine() +
    "    );\n" +
    "}  \n" +
    "\n" +
    "  "
  }

  /** The first eight lines of `routeConfig()`: the imports, the doc comment
      and `configure_routes` up to its first example route. */
  function RouteConfigOpening(): seq<char>
  {
    "use crate::routes;\n" +
    "use actix_web::web;\n" +
    "\n" +
    "/// Configures all the api routes\n" +
    "pub fn configure_routes(cfg: &mut web::ServiceConfig) {\n" +
    "    cfg.service(\n" +
    "        web::scope(\"/example\")\n" +
    "            .service(routes::example::welcome)\n"
  }

  /** `routeConfig()` up to its last `;`: the opening lines, the `echo`
      route and the indentation and `)` that close `cfg.service(`. */
  function RouteConfigHead(): seq<char>
  {
    RouteConfigOpening() + EchoRouteLine() + "    )"
  }

  function EchoRouteLine(): seq<char>
  {
    "            .service(routes::example::echo)\n"
  }

  function RouteConfigTail(): seq<char>
  {
    "\n}  \n\n  "
  }

  /** The closing lines of `routeConfig()` after any text `x`. */
  lemma ClosingLines(x: seq<char>)
    ensures x + "    );\n" + "}  \n" + "\n" + "  " == x + "    )" + ";" + RouteConfigTail()
  {
    assert "    );\n" + "}  \n" + "\n" + "  " == "    )" + ";" + RouteConfigTail();
  }

  /** The head ends with the last registered example route and the `)`
      closing the `cfg.service(` call. */
  lemma RouteConfigHeadEnd()
    ensures |RouteConfigHead()| >= |"            .service(routes::example::echo)\n    )"|
    ensures RouteConfigHead()[|RouteConfigHead()| - |"            .service(routes::example::echo)\n    )"|..]
         == "            .service(routes::example::echo)\n    )"
  {
    var suffix := EchoRouteLine() + "    )";
    assert suffix == "            .service(routes::example::echo)\n    )";
    assert RouteConfigHead() == RouteConfigOpening() + suffix;
    assert RouteConfigHead()[|RouteConfigOpening()|..] == suffix;
  }

  /** `webServices()`: the text that replaces the last statement of
      `config.rs` when a web frontend is added: the registrations
      (`WebServicesHead`), its one `;`, and the closing brace of
      `configure_routes` (`WebServicesTail`). */
  function WebServices(): seq<char>
  {
    WebServicesHead() + ";" + WebServicesTail()
  }

  /** `routeMod()`: the initial `src/routes/mod.rs`, which reads as the two
      module declarations, a blank line and an indented empty line. */
  function RouteMod(): (r: seq<char>)
    ensures Split(r, '\n') == ["pub mod example;", "pub mod config;", "", "  "]
  {
    ModuleDeclarationsAreLines();
    TwoLinesBlankLine("pub mod example;", "pub mod config;", "  ");
    "pub mod example;" + "\n" +
    "pub mod config;" + "\n" +
    "\n" +
    "  "
  }

  lemma ModuleDeclarationsAreLines()
    ensures '\n' !in "pub mod example;" && '\n' !in "pub mod config;" && '\n' !in "  "
  {
  }

  /** Two lines, a blank line and a last line, read back as lines. */
  lemma TwoLinesBlankLine(l1: seq<char>, l2: seq<char>, l4: seq<char>)
    requires '\n' !in l1 && '\n' !in l2 && '\n' !in l4
    ensures Split(l1 + "\n" + l2 + "\n" + "\n" + l4, '\n') == [l1, l2, [], l4]
  {
    SplitWithoutSeparator(l1, '\n');
    SplitWithoutSeparator(l2, '\n');
    SplitWithoutSeparator(l4, '\n');
    var y := l1 + "\n" + l2;
    var x := y + "\n";
    SplitAtSeparator(l1, l2, '\n');
    assert x == y + ['\n'] + [];
    SplitAtSeparator(y, [], '\n');
    SplitAtSeparator(x, l4, '\n');
  }

  /** `webServices()` up to its one `;`: a `.service(web::scope("web"))`
      and a `.service(web::scope("assets"))` registration chained onto the
      `cfg.service(...)` call. The indentation of the handler lines is a
      piece of its own: the solver can rule out a `;` in the short pieces,
      not in the whole lines. */
  function WebServicesHead(): seq<char>
  {
    "\n" +
    "    .service(\n" +
    "        web::scope(\"web\")\n" +
    "            " + ".service(routes::web::get_index)\n" +
    "    )\n" +
    "    .service(\n" +
    "        web::scope(\"assets\")\n" +
    "            " + ".service(routes::web::get_index_js)\n" +
    "            " + ".service(routes::web::get_index_css)\n" +
    "            " + ".service(routes::web::get_react_svg),\n" +
    "    )"
  }

  /** The registrations hold no `;`. */
  lemma WebServicesHeadWithoutSemicolon()
    ensures ';' !in WebServicesHead()
  {
    ScopeLinesWithoutSemicolon();
    HandlersWithoutSemicolon();
  }

  /** No line opening or closing a scope, and no indentation, holds a `;`. */
  lemma ScopeLinesWithoutSemicolon()
    ensures ';' !in "\n" && ';' !in "    .service(\n" && ';' !in "    )\n" && ';' !in "    )"
    ensures ';' !in "        web::scope(\"web\")\n"
    ensures ';' !in "        web::scope(\"assets\")\n"
    ensures ';' !in "            "
  {
  }

  /** No handler registration holds a `;`. */
  lemma HandlersWithoutSemicolon()
    ensures ';' !in ".service(routes::web::get_index)\n"
    ensures ';' !in ".service(routes::web::get_index_js)\n"
    ensures ';' !in ".service(routes::web::get_index_css)\n"
    ensures ';' !in ".service(routes::web::get_react_svg),\n"
  {
  }

  function WebServicesTail(): seq<char>
  {
    "\n}\n"
  }

  /** A text without `;`, then `;`, then a text without `;`, holds one `;`,
      and it is the last. */
  lemma {:induction false} OneSemicolon(head: seq<char>, tail: seq<char>)
    requires ';' !in head && ';' !in tail
    ensures Count(head + ";" + tail, ';') == 1
    ensures LastIndexOf(head + ";" + tail, ';') == |head|
  {
    var t := head + ";" + tail;
    CountAppend(head, ";", ';');
    CountAppend(head + ";", tail, ';');
    assert t[|head|] == ';';
    assert t[|head| + 1..] == tail;
    LastIndexOfUnique(t, ';', |head|);
  }

  /** `webServices()` holds one `;`, right after its head, so that `;` is
      also its last. */
  lemma WebServicesSemicolon()
    ensures Count(WebServices(), ';') == 1
    ensures LastIndexOf(WebServices(), ';') == |WebServicesHead()|
  {
    WebServicesHeadWithoutSemicolon();
    assert ';' !in WebServicesTail();
    OneSemicolon(WebServicesHead(), WebServicesTail());
  }
}

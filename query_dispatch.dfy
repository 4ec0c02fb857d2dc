/** The command line of the XML query tool (examples/xml/testXML.cpp): any
    `--help` argument shows the usage and ends the run before any query;
    otherwise each argument after the program name is one query, whose first
    character may pick the kind of query. */
module QueryDispatch {
  /** `query_type` */
  datatype QueryType = Quantity | DataSet | Raw

  /** One call of `showResults`: the kind of query and the XPath expression. */
  datatype Query = Query(kind: QueryType, xpath: string)

  /** What `main` does: show the usage, or run the queries in order. */
  datatype Run = Help | Queries(queries: seq<Query>)

  /** `help_str` */
  const HelpOption: string := "--help"

  /** The modifier character that selects each kind of query. */
  function Modifier(k: QueryType): char {
    match k
    case Quantity => 'q'
    case DataSet => 'd'
    case Raw => 'r'
  }

  predicate IsModifier(c: char) {
    c == 'd' || c == 'r' || c == 'q'
  }

  /** The `switch` on an argument's first character: `d`, `r` and `q` select
      their kind and are stripped; anything else, the terminating NUL of an
      empty argument included, is a quantity query on the whole argument. */
  function Classify(arg: string): Query {
    if |arg| > 0 && arg[0] == 'd' then Query(DataSet, arg[1..])
    else if |arg| > 0 && arg[0] == 'r' then Query(Raw, arg[1..])
    else if |arg| > 0 && arg[0] == 'q' then Query(Quantity, arg[1..])
    else Query(Quantity, arg)
  }

  /** An argument written with an explicit modifier is classified as written,
      whatever the expression. */
  lemma ClassifyModified(q: Query)
    ensures Classify([Modifier(q.kind)] + q.xpath) == q
  {
    assert ([Modifier(q.kind)] + q.xpath)[1..] == q.xpath;
  }

  /** The argument is the query's expression, preceded by the modifier only
      when there was one: nothing but that one character is dropped. */
  lemma ClassifyKeepsExpression(arg: string)
    ensures var q := Classify(arg);
            if |arg| > 0 && IsModifier(arg[0]) then arg == [Modifier(q.kind)] + q.xpath
            else q == Query(Quantity, arg)
  {
    if |arg| > 0 && IsModifier(arg[0]) {
      assert arg == [arg[0]] + arg[1..];
    }
  }

  /** Without a modifier, an argument means what it means with `q` in front. */
  lemma DefaultIsQuantity(arg: string)
    requires arg == [] || !IsModifier(arg[0])
    ensures Classify(arg) == Classify(['q'] + arg)
  {
    assert (['q'] + arg)[1..] == arg;
  }

  /** `main`: first looks for `--help` among the arguments after the program
      name and stops at the first one; otherwise runs one query per argument,
      in order, the program name excluded. */
  method RunArguments(argv: seq<string>) returns (r: Run)
    ensures r.Help? <==> exists i :: 1 <= i < |argv| && argv[i] == HelpOption
    ensures r.Queries? ==> |r.queries| == if argv == [] then 0 else |argv| - 1
    ensures r.Queries? ==> forall i :: 1 <= i < |argv| ==> r.queries[i - 1] == Classify(argv[i])
  {
    var i := 1;
    while i < |argv|
      invariant 1 <= i
      invariant forall j :: 1 <= j < i && j < |argv| ==> argv[j] != HelpOption
    {
      if argv[i] == HelpOption {
        return Help;
      }
      i := i + 1;
    }
    var queries: seq<Query> := [];
    i := 1;
    while i < |argv|
      invariant 1 <= i <= |argv| || (|argv| == 0 && i == 1)
      invariant |queries| == i - 1
      invariant forall j :: 1 <= j < i ==> queries[j - 1] == Classify(argv[j])
    {
      queries := queries + [Classify(argv[i])];
      i := i + 1;
    }
    assert |argv| >= 1 ==> i == |argv|;
    r := Queries(queries);
  }
}

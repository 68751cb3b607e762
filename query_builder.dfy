/**
 * The query text assembled by WeatherReport::select: a base statement
 * followed by the WHERE, ORDER BY, LIMIT and OFFSET clauses, each joined
 * with single spaces.
 */
module QueryBuilder {
  import opened Wrappers

  /** The statement every query starts from. */
  const Base := "SELECT * FROM weather_reports"

  /** The ordering used when the caller gives none: newest id first. */
  const DefaultOrder := "id DESC"

  /** format!("{} {} {}", a, b, c) */
  function Join3(a: string, b: string, c: string): (r: string)
    ensures |r| == |a| + |b| + |c| + 2 && r[..|a|] == a
  {
    a + " " + b + " " + c
  }

  // ---------------------------------------------------------------------
  // Decimal rendering of the numeric arguments (Rust's Display for usize)
  // ---------------------------------------------------------------------

  predicate IsDigits(s: string) {
    forall i :: 0 <= i < |s| ==> '0' <= s[i] <= '9'
  }

  function DigitChar(d: nat): (c: char)
    requires d < 10
    ensures '0' <= c <= '9'
    ensures c as int - '0' as int == d
  {
    ('0' as int + d) as char
  }

  /** The decimal digits of n, most significant first, without leading zeros. */
  function NatToString(n: nat): (s: string)
    ensures |s| >= 1 && IsDigits(s)
    ensures s[0] == '0' ==> n == 0 && s == "0"
    decreases n
  {
    if n < 10 then [DigitChar(n)] else NatToString(n / 10) + [DigitChar(n % 10)]
  }

  /** The number a string of decimal digits denotes: the inverse of NatToString. */
  function DecimalValue(s: string): nat
    requires IsDigits(s)
  {
    if s == [] then 0
    else DecimalValue(s[..|s| - 1]) * 10 + (s[|s| - 1] as int - '0' as int)
  }

  lemma {:induction false} DecimalValueOfNatToString(n: nat)
    ensures DecimalValue(NatToString(n)) == n
    decreases n
  {
    var s := NatToString(n);
    if n >= 10 {
      DecimalValueOfNatToString(n / 10);
      assert s[..|s| - 1] == NatToString(n / 10);
    }
  }

  /** Different numbers never render to the same text. */
  lemma NatToStringInjective(a: nat, b: nat)
    requires NatToString(a) == NatToString(b)
    ensures a == b
  {
    DecimalValueOfNatToString(a);
    DecimalValueOfNatToString(b);
  }

  // ---------------------------------------------------------------------
  // The query, as the source assembles it and as a list of clauses
  // ---------------------------------------------------------------------

  /**
   * WeatherReport::select's query text, built the way the source builds it:
   * four steps that each either leave the text alone or append one clause.
   * The parameters come in the source's order.
   */
  function SelectQuery(limit: Option<nat>, offset: Option<nat>, order: Option<string>,
                       query: Option<string>): (q: string)
    ensures |q| > |Base| && q[..|Base|] == Base
  {
    var withWhere := if query.Some? then Join3(Base, "WHERE", query.value) else Base;
    var withOrder := Join3(withWhere, "ORDER BY", OrderText(order));
    var withLimit := if limit.Some? then Join3(withOrder, "LIMIT", NatToString(limit.value)) else withOrder;
    if offset.Some? then Join3(withLimit, "OFFSET", NatToString(offset.value)) else withLimit
  }

  datatype Clause = Where(condition: string) | OrderBy(order: string) | Limit(count: nat) | Offset(skip: nat)
  {
    function Keyword(): string {
      match this
      case Where(_) => "WHERE"
      case OrderBy(_) => "ORDER BY"
      case Limit(_) => "LIMIT"
      case Offset(_) => "OFFSET"
    }

    function Argument(): string {
      match this
      case Where(p) => p
      case OrderBy(o) => o
      case Limit(n) => NatToString(n)
      case Offset(n) => NatToString(n)
    }

    /** Where the clause stands in the fixed clause order. */
    function Rank(): nat {
      match this
      case Where(_) => 0
      case OrderBy(_) => 1
      case Limit(_) => 2
      case Offset(_) => 3
    }
  }

  /** The clauses a query carries, in emission order. */
  function Clauses(limit: Option<nat>, offset: Option<nat>, order: Option<string>,
                   query: Option<string>): seq<Clause>
  {
    WhereClause(query) + [OrderBy(OrderText(order))] + LimitClause(limit) + OffsetClause(offset)
  }

  /** The ordering select uses: the caller's, or id DESC when none is given. */
  function OrderText(order: Option<string>): string {
    if order.Some? then order.value else DefaultOrder
  }

  function WhereClause(query: Option<string>): (cs: seq<Clause>)
    ensures forall c :: c in cs <==> query.Some? && c == Where(query.value)
  {
    if query.Some? then [Where(query.value)] else []
  }

  function LimitClause(limit: Option<nat>): (cs: seq<Clause>)
    ensures forall c :: c in cs <==> limit.Some? && c == Limit(limit.value)
  {
    if limit.Some? then [Limit(limit.value)] else []
  }

  function OffsetClause(offset: Option<nat>): (cs: seq<Clause>)
    ensures forall c :: c in cs <==> offset.Some? && c == Offset(offset.value)
  {
    if offset.Some? then [Offset(offset.value)] else []
  }

  /** Ranks strictly increase along cs: clauses come in the fixed order and no kind repeats. */
  predicate InFixedOrder(cs: seq<Clause>) {
    forall i, j :: 0 <= i < j < |cs| ==> cs[i].Rank() < cs[j].Rank()
  }

  lemma InFixedOrderAppend(a: seq<Clause>, b: seq<Clause>)
    requires InFixedOrder(a) && InFixedOrder(b)
    requires forall x, y :: x in a && y in b ==> x.Rank() < y.Rank()
    ensures InFixedOrder(a + b)
  {
    forall i, j | 0 <= i < j < |a + b| ensures (a + b)[i].Rank() < (a + b)[j].Rank() {
      if j < |a| {
      } else if i >= |a| {
        assert (a + b)[i] == b[i - |a|] && (a + b)[j] == b[j - |a|];
      } else {
        assert (a + b)[i] in a && (a + b)[j] in b;
      }
    }
  }

  /** Clauses appear in the fixed order WHERE, ORDER BY, LIMIT, OFFSET, so no kind twice. */
  lemma {:induction false} ClausesInFixedOrder(limit: Option<nat>, offset: Option<nat>,
                                               order: Option<string>, query: Option<string>)
    ensures InFixedOrder(Clauses(limit, offset, order, query))
  {
    var w := WhereClause(query);
    var wo := w + [OrderBy(OrderText(order))];
    var wol := wo + LimitClause(limit);
    InFixedOrderAppend(w, [OrderBy(OrderText(order))]);
    InFixedOrderAppend(wo, LimitClause(limit));
    InFixedOrderAppend(wol, OffsetClause(offset));
  }

  /**
   * Each clause is present exactly when its argument is, and carries it as
   * given; there is always exactly one ORDER BY, id DESC when no order is given.
   */
  lemma ClausesFollowArguments(limit: Option<nat>, offset: Option<nat>, order: Option<string>,
                               query: Option<string>)
    ensures var cs := Clauses(limit, offset, order, query);
            && (forall p :: Where(p) in cs <==> query == Some(p))
            && (forall o :: OrderBy(o) in cs <==> o == OrderText(order))
            && (forall n: nat :: Limit(n) in cs <==> limit == Some(n))
            && (forall n: nat :: Offset(n) in cs <==> offset == Some(n))
  {
    var cs := Clauses(limit, offset, order, query);
    forall c ensures c in cs <==> c in WhereClause(query) || c == OrderBy(OrderText(order))
                                  || c in LimitClause(limit) || c in OffsetClause(offset) {
    }
  }

  /** One clause as the source appends it: a space, its keyword, a space, its argument. */
  function Piece(c: Clause): string {
    " " + c.Keyword() + " " + c.Argument()
  }

  function RenderClauses(cs: seq<Clause>): string {
    if cs == [] then "" else Piece(cs[0]) + RenderClauses(cs[1..])
  }

  /** The text of a query made of the given clauses. */
  function Render(cs: seq<Clause>): string {
    Base + RenderClauses(cs)
  }

  /** Appending one clause to a rendered query is one more format! step. */
  lemma {:induction false} RenderAppend(cs: seq<Clause>, c: Clause)
    ensures Render(cs + [c]) == Join3(Render(cs), c.Keyword(), c.Argument())
  {
    RenderClausesAppend(cs, c);
    AppendAfterPrefix(Base, RenderClauses(cs), c.Keyword(), c.Argument());
  }

  lemma AppendAfterPrefix(prefix: string, rendered: string, keyword: string, argument: string)
    ensures prefix + (rendered + (" " + keyword + " " + argument))
            == Join3(prefix + rendered, keyword, argument)
  {
  }

  lemma {:induction false} RenderClausesAppend(cs: seq<Clause>, c: Clause)
    ensures RenderClauses(cs + [c]) == RenderClauses(cs) + Piece(c)
    decreases |cs|
  {
    if cs == [] {
      assert [c][1..] == [];
      assert RenderClauses([c]) == Piece(c) + RenderClauses([]);
    } else {
      var head, rest := Piece(cs[0]), RenderClauses(cs[1..]);
      assert (cs + [c])[0] == cs[0];
      assert (cs + [c])[1..] == cs[1..] + [c];
      RenderClausesAppend(cs[1..], c);
      calc {
        RenderClauses(cs + [c]);
        head + RenderClauses(cs[1..] + [c]);
        head + (rest + Piece(c));
        (head + rest) + Piece(c);
        RenderClauses(cs) + Piece(c);
      }
    }
  }

  /** Appending at most one clause to a rendered query. */
  lemma RenderAppendOptional(cs: seq<Clause>, opt: seq<Clause>)
    requires |opt| <= 1
    ensures Render(cs + opt) == if opt == [] then Render(cs)
                                else Join3(Render(cs), opt[0].Keyword(), opt[0].Argument())
  {
    if opt == [] {
      assert cs + opt == cs;
    } else {
      assert opt == [opt[0]];
      RenderAppend(cs, opt[0]);
    }
  }

  /** The source's step-by-step assembly yields exactly the rendering of Clauses. */
  lemma {:induction false} SelectQueryRendersClauses(limit: Option<nat>, offset: Option<nat>,
                                                     order: Option<string>, query: Option<string>)
    ensures SelectQuery(limit, offset, order, query) == Render(Clauses(limit, offset, order, query))
  {
    var w := WhereClause(query);
    var wo := w + [OrderBy(OrderText(order))];
    var wol := wo + LimitClause(limit);
    RenderAppendOptional([], w);
    assert [] + w == w;
    assert Render([]) == Base;
    RenderAppend(w, OrderBy(OrderText(order)));
    RenderAppendOptional(wo, LimitClause(limit));
    RenderAppendOptional(wol, OffsetClause(offset));
  }

  /** Every query begins with the base statement. */
  lemma SelectQueryStartsWithBase(limit: Option<nat>, offset: Option<nat>,
                                  order: Option<string>, query: Option<string>)
    ensures Base <= SelectQuery(limit, offset, order, query)
  {
    SelectQueryRendersClauses(limit, offset, order, query);
  }

  /** With only a limit of 1, the query orders by id, newest first, and takes one row. */
  lemma LimitOneQuery()
    ensures SelectQuery(Some(1), None, None, None)
            == "SELECT * FROM weather_reports ORDER BY id DESC LIMIT 1"
  {
    assert NatToString(1) == "1";
    var ordered := Join3(Base, "ORDER BY", DefaultOrder);
    assert ordered == "SELECT * FROM weather_reports ORDER BY id DESC";
    assert SelectQuery(Some(1), None, None, None) == Join3(ordered, "LIMIT", "1");
  }

  /** With a limit and no offset the query ends in that limit, and the number can be read back. */
  lemma LimitIsLastClause(n: nat, order: Option<string>, query: Option<string>)
    ensures var q := SelectQuery(Some(n), None, order, query);
            var digits := NatToString(n);
            |q| > |digits| + 7
            && q[|q| - |digits| - 7..] == " LIMIT " + digits
            && DecimalValue(q[|q| - |digits|..]) == n
  {
    var q := SelectQuery(Some(n), None, order, query);
    var digits := NatToString(n);
    var front := Join3(if query.Some? then Join3(Base, "WHERE", query.value) else Base,
                       "ORDER BY", OrderText(order));
    assert q == front + " LIMIT " + digits;
    assert q[|q| - |digits| - 7..] == " LIMIT " + digits;
    assert q[|q| - |digits|..] == digits;
    DecimalValueOfNatToString(n);
  }
}

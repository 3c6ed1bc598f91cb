/** JSON documents, and what a JSON pointer finds in them (RFC 6901 section 4). */
module Json {
  import opened Wrappers
  import opened Sequences
  import opened Text

  /** Numbers keep the three representations that are told apart by equality. */
  datatype Number = PosInt(u: nat) | NegInt(i: int) | Float(f: real)

  datatype Json =
    | Null
    | Bool(b: bool)
    | Num(n: Number)
    | Str(s: string)
    | Array(items: seq<Json>)
    | Object(members: map<string, Json>)

  /** A location in a document: the unescaped reference tokens from the root. */
  type Path = seq<string>

  function Child(v: Json, token: string): (c: Option<Json>)
    ensures c.Some? ==> c.value < v
  {
    match v
    case Object(members) => if token in members then Some(members[token]) else None
    case Array(items) =>
      (match ParseIndex(token)
       case Some(i) => if i < |items| then Some(items[i]) else None
       case None => None)
    case _ => None
  }

  function ChildOf(v: Option<Json>, token: string): Option<Json> {
    if v.Some? then Child(v.value, token) else None
  }

  /** The value a pointer designates, if the document has one there. */
  function Find(v: Option<Json>, at: Path): Option<Json>
    decreases |at|
  {
    if at == [] then v else Find(ChildOf(v, at[0]), at[1..])
  }

  predicate SameContainer(l: Json, r: Json) {
    (l.Object? && r.Object?) || (l.Array? && r.Array?)
  }

  function Indices(n: nat): seq<string> {
    seq(n, i requires 0 <= i < n => Decimal(i))
  }

  /** The tokens under which two containers of one kind have children, in traversal order. */
  function Tokens(l: Json, r: Json): seq<string>
    requires SameContainer(l, r)
  {
    if l.Object? then SortedKeys(l.members.Keys + r.members.Keys)
    else Indices(Max(|l.items|, |r.items|))
  }

  lemma TokensDistinct(l: Json, r: Json)
    requires SameContainer(l, r)
    ensures Distinct(Tokens(l, r))
  {
    var ts := Tokens(l, r);
    forall i, j | 0 <= i < j < |ts| ensures ts[i] != ts[j] {
      if l.Object? {
        LessIrreflexive(ts[i]);
      } else {
        DecimalParses(i);
        DecimalParses(j);
      }
    }
  }

  lemma TokensComplete(l: Json, r: Json, token: string)
    requires SameContainer(l, r)
    ensures token in Tokens(l, r) <==> Child(l, token).Some? || Child(r, token).Some?
  {
    if l.Array? {
      IndicesComplete(Max(|l.items|, |r.items|), token);
    }
  }

  lemma {:induction false} IndicesComplete(n: nat, token: string)
    ensures token in Indices(n) <==> IsIndex(token) && Value(token) < n
  {
    if token in Indices(n) {
      var i :| 0 <= i < n && Indices(n)[i] == token;
      DecimalParses(i);
    }
    if IsIndex(token) && Value(token) < n {
      ParsedIsDecimal(token);
      assert Indices(n)[Value(token)] == token;
    }
  }

  lemma {:induction false} ItemAt(items: seq<Json>, i: nat)
    ensures Child(Array(items), Decimal(i)) == if i < |items| then Some(items[i]) else None
  {
    DecimalParses(i);
  }
}

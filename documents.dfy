/**
 * BSON-like documents as the router sees them: an ordered sequence of named
 * fields. Order matters (a command is dispatched on its first field name) and
 * a name may occur twice; every lookup finds the FIRST field with that name,
 * as BSONObj::getField and Document::getField do.
 */
module Documents {

  datatype Option<T> = None | Some(value: T)

  /** One BSON value. `Number` stands for every numeric BSON type. */
  datatype Value =
    | Null
    | Bool(b: bool)
    | Number(n: int)
    | Str(s: string)
    | Object(fields: seq<Field>)
    | Array(elems: seq<Value>)
    | Other(tag: nat)   // dates, object ids, binary data, ...: only ever copied

  datatype Field = Field(name: string, value: Value)

  type Document = seq<Field>

  /** The value of the first field called `name`, if any. */
  function Lookup(d: Document, name: string): Option<Value> {
    if |d| == 0 then None
    else if d[0].name == name then Some(d[0].value)
    else Lookup(d[1..], name)
  }

  /** Lookup finds the first field with the name, and nothing when there is none. */
  lemma {:induction false} LookupFindsFirst(d: Document, name: string)
    ensures Lookup(d, name).None? <==> forall i | 0 <= i < |d| :: d[i].name != name
    ensures Lookup(d, name).Some? ==>
      exists i | 0 <= i < |d| ::
        d[i] == Field(name, Lookup(d, name).value) && forall j | 0 <= j < i :: d[j].name != name
  {
    if |d| > 0 && d[0].name != name {
      var tail := d[1..];
      LookupFindsFirst(tail, name);
      assert forall i | 0 <= i < |tail| :: tail[i] == d[i + 1];
      if Lookup(d, name).Some? {
        var i :| 0 <= i < |tail| && tail[i] == Field(name, Lookup(d, name).value)
                 && forall j | 0 <= j < i :: tail[j].name != name;
        assert d[i + 1] == Field(name, Lookup(d, name).value);
      }
    }
  }

  /** A field that no earlier field shares its name with is what a read of that name finds. */
  lemma FirstOccurrenceIsRead(d: Document, i: nat)
    requires i < |d| && forall j | 0 <= j < i :: d[j].name != d[i].name
    ensures Lookup(d, d[i].name) == Some(d[i].value)
  {
    LookupFindsFirst(d, d[i].name);
    var k :| 0 <= k < |d| && d[k] == Field(d[i].name, Lookup(d, d[i].name).value)
             && forall j | 0 <= j < k :: d[j].name != d[i].name;
    assert k == i;
  }

  predicate HasField(d: Document, name: string) {
    Lookup(d, name).Some?
  }

  /** Name of the first field, "" for an empty document (BSONObj::firstElementFieldName). */
  function FirstFieldName(d: Document): string {
    if |d| == 0 then "" else d[0].name
  }

  /** Both documents carry the same names at every position of `base`. */
  ghost predicate KeepsLeadingNames(d: Document, base: Document) {
    |base| <= |d| && forall i | 0 <= i < |base| :: d[i].name == base[i].name
  }

  /**
   * MutableDocument::setField (also its `doc[name] = v` form): overwrite the
   * first field called `name` where it stands, or append one at the end.
   */
  function Put(d: Document, name: string, v: Value): (r: Document)
    ensures Lookup(r, name) == Some(v)
    ensures forall m :: m != name ==> Lookup(r, m) == Lookup(d, m)
    ensures KeepsLeadingNames(r, d)
    ensures |r| == if HasField(d, name) then |d| else |d| + 1
  {
    if |d| == 0 then [Field(name, v)]
    else if d[0].name == name then [Field(name, v)] + d[1..]
    else
      var rest := Put(d[1..], name, v);
      assert ([d[0]] + rest)[1..] == rest;
      [d[0]] + rest
  }

  /**
   * setField touches nothing but the first field called `name`, and a new
   * field goes at the end.
   */
  lemma {:induction false} PutTouchesOnlyFirst(d: Document, name: string, v: Value)
    ensures forall i | 0 <= i < |d| && Put(d, name, v)[i] != d[i] ::
      d[i].name == name && forall j | 0 <= j < i :: d[j].name != name
    ensures !HasField(d, name) ==> Put(d, name, v) == d + [Field(name, v)]
  {
    if |d| > 0 && d[0].name != name {
      var tail := d[1..];
      PutTouchesOnlyFirst(tail, name, v);
      var r := Put(d, name, v);
      assert r == [d[0]] + Put(tail, name, v);
      forall i | 0 <= i < |d| && r[i] != d[i]
        ensures d[i].name == name && forall j | 0 <= j < i :: d[j].name != name
      {
        assert i > 0 && r[i] == Put(tail, name, v)[i - 1] && d[i] == tail[i - 1];
        forall j | 0 <= j < i ensures d[j].name != name {
          if j > 0 { assert d[j] == tail[j - 1]; }
        }
      }
      if !HasField(d, name) {
        assert [d[0]] + (tail + [Field(name, v)]) == d + [Field(name, v)];
      }
    }
  }

  /** Position of the first occurrence of `n` in `names`, or |names| when there is none. */
  function Rank(names: seq<string>, n: string): (k: nat)
    ensures k <= |names|
    ensures forall i | 0 <= i < k :: names[i] != n
    ensures k < |names| ==> names[k] == n
  {
    if |names| == 0 || names[0] == n then 0
    else 1 + Rank(names[1..], n)
  }

  /** BSONElement::trueValue of a field that may be missing (a missing field is false). */
  function TrueValue(v: Option<Value>): bool {
    match v
    case None => false
    case Some(Null) => false
    case Some(Bool(b)) => b
    case Some(Number(n)) => n != 0
    case Some(_) => true
  }

  /** BSONElement::str: the string, or "" when the field is missing or not a string. */
  function StrValue(v: Option<Value>): string {
    match v
    case Some(Str(s)) => s
    case _ => ""
  }

  /** BSONElement::numberInt: the number, or 0 when the field is missing or not numeric. */
  function IntValue(v: Option<Value>): int {
    match v
    case Some(Number(n)) => n
    case _ => 0
  }
}

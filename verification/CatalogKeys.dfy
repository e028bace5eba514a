/** The topic entry keys of catalog objects: be/src/catalog/catalog-util.cc. */
module CatalogKeys {

  datatype ObjectType = DATABASE | TABLE | VIEW | FUNCTION | CATALOG | UNKNOWN

  /** The identifying fields of a TCatalogObject; `name` is the table name or the signature. */
  datatype Object =
    | Database(db: string)
    | Table(db: string, name: string)
    | View(db: string, name: string)
    | Function(db: string, name: string)
    | CatalogService(id: string)

  datatype Parsed = Ok(object: Object) | Error

  function TypeOf(o: Object): ObjectType {
    match o
    case Database(_) => DATABASE
    case Table(_, _) => TABLE
    case View(_, _) => VIEW
    case Function(_, _) => FUNCTION
    case CatalogService(_) => CATALOG
  }

  function TypeName(t: ObjectType): string {
    match t
    case DATABASE => "DATABASE"
    case TABLE => "TABLE"
    case VIEW => "VIEW"
    case FUNCTION => "FUNCTION"
    case CATALOG => "CATALOG"
    case UNKNOWN => "UNKNOWN"
  }

  function UpperChar(c: char): char {
    if 'a' <= c <= 'z' then ((c as int) - 32) as char else c
  }

  function ToUpper(s: string): string {
    seq(|s|, i requires 0 <= i < |s| => UpperChar(s[i]))
  }

  function TypeFromName(name: string): ObjectType {
    var upper := ToUpper(name);
    if upper == "DATABASE" then DATABASE
    else if upper == "TABLE" then TABLE
    else if upper == "VIEW" then VIEW
    else if upper == "FUNCTION" then FUNCTION
    else if upper == "CATALOG" then CATALOG
    else UNKNOWN
  }

  /** string::find; npos is -1. */
  function Find(s: string, c: char): (pos: int)
    ensures pos == -1 ==> c !in s
    ensures pos != -1 ==> 0 <= pos < |s| && s[pos] == c && c !in s[..pos]
  {
    if s == [] then -1
    else if s[0] == c then 0
    else
      var rest := Find(s[1..], c);
      assert rest != -1 ==> s[..rest + 1] == [s[0]] + s[1..][..rest];
      if rest == -1 then -1 else rest + 1
  }

  function ObjectName(o: Object): string {
    match o
    case Database(db) => db
    case Table(db, name) => db + "." + name
    case View(db, name) => db + "." + name
    case Function(db, name) => db + "." + name
    case CatalogService(id) => id
  }

  function ToEntryKey(o: Object): string {
    TypeName(TypeOf(o)) + ":" + ObjectName(o)
  }

  function FromObjectName(t: ObjectType, name: string): Parsed {
    match t
    case DATABASE => Ok(Database(name))
    case TABLE | VIEW | FUNCTION =>
      var pos := Find(name, '.');
      if pos == -1 || pos >= |name| - 1 then Error
      else
        var db, rest := name[..pos], name[pos + 1..];
        Ok(if t == TABLE then Table(db, rest) else if t == VIEW then View(db, rest) else Function(db, rest))
    case CATALOG | UNKNOWN => Error
  }

  function FromEntryKey(key: string): Parsed {
    var pos := Find(key, ':');
    if pos == -1 || pos >= |key| - 1 then Error
    else FromObjectName(TypeFromName(key[..pos]), key[pos + 1..])
  }

  /** Exactly these objects can be restored from their key. */
  predicate Restorable(o: Object) {
    match o
    case Database(db) => db != ""
    case CatalogService(_) => false
    case _ => '.' !in o.db && o.name != ""
  }

  lemma FindSeparator(a: string, c: char, b: string)
    requires c !in a
    ensures Find(a + [c] + b, c) == |a|
  {
    var s := a + [c] + b;
    assert s[|a|] == c;
    assert forall i :: 0 <= i < |a| ==> s[i] == a[i];
    assert forall n :: |a| < n <= |s| ==> s[..n][|a|] == c;
  }

  lemma TypeNames(t: ObjectType)
    ensures ToUpper(TypeName(t)) == TypeName(t) && ':' !in TypeName(t)
    ensures TypeFromName(TypeName(t)) == t
  {
  }

  lemma KeyParts(o: Object)
    ensures var key := ToEntryKey(o);
            var pos := |TypeName(TypeOf(o))|;
            Find(key, ':') == pos && key[..pos] == TypeName(TypeOf(o)) && key[pos + 1..] == ObjectName(o)
  {
    TypeNames(TypeOf(o));
    FindSeparator(TypeName(TypeOf(o)), ':', ObjectName(o));
  }

  lemma NameParts(db: string, name: string)
    ensures var s := db + "." + name;
            var pos := Find(s, '.');
            && 0 <= pos < |s|
            && (pos < |s| - 1 && s[..pos] == db && s[pos + 1..] == name <==> '.' !in db && name != "")
  {
    var s := db + "." + name;
    assert s[|db|] == '.';
    if '.' !in db {
      FindSeparator(db, '.', name);
      assert s[..|db|] == db && s[|db| + 1..] == name;
    }
  }

  /** Parsing an object's key restores the object exactly if it is restorable. */
  lemma RoundTrip(o: Object)
    ensures FromEntryKey(ToEntryKey(o)) == Ok(o) <==> Restorable(o)
  {
    KeyParts(o);
    TypeNames(TypeOf(o));
    if !o.Database? && !o.CatalogService? {
      NameParts(o.db, o.name);
    }
  }

  /** So distinct restorable objects have distinct keys. */
  lemma KeysDistinct(o: Object, p: Object)
    requires Restorable(o) && Restorable(p) && ToEntryKey(o) == ToEntryKey(p)
    ensures o == p
  {
    RoundTrip(o);
    RoundTrip(p);
  }

  /** A dot in a database name can make two keys collide. */
  lemma DottedNamesCollide(a: string, b: string, c: string)
    ensures var o, p := Table(a + "." + b, c), Table(a, b + "." + c);
            o != p && ToEntryKey(o) == ToEntryKey(p)
  {
    assert |a + "." + b| > |a|;
    assert a + "." + b + "." + c == a + "." + (b + "." + c);
    assert "TABLE" + ":" + (a + "." + b + "." + c) == "TABLE" + ":" + (a + "." + (b + "." + c));
  }
}

/**
 * The entity base: its partition key defaults to the table attribute's name or
 * to the pluralised type name, and its hash depends only on its two keys.
 */
module TableEntity {
  import opened Wrappers
  import opened Expressions
  import opened Attributes

  /** The last character lower-cases to `y`. */
  predicate IsY(c: char)
  {
    c == 'y' || c == 'Y'
  }

  /** The last character lower-cases to `s`. */
  predicate IsS(c: char)
  {
    c == 's' || c == 'S'
  }

  /** The name's last character is `s` or `S`. */
  predicate EndsInS(name: string)
  {
    name != [] && IsS(name[|name| - 1])
  }

  /**
   * The pluralisation rule: a final `y`/`Y` becomes `ies`, then `s` is appended
   * unless the name already ends in `s`/`S`. Taking the last character of an
   * empty name throws.
   */
  function Pluralize(typeName: string): (r: Result<string, Exception>)
    ensures typeName == [] <==> r == Err(ArgumentOutOfRangeException)
    ensures r.Ok? ==> EndsInS(r.value)
  {
    if typeName == [] then Err(ArgumentOutOfRangeException)
    else
      var stem := if IsY(typeName[|typeName| - 1]) then typeName[..|typeName| - 1] + "ies" else typeName;
      Ok(if IsS(stem[|stem| - 1]) then stem else stem + "s")
  }

  /** The default partition key: the table attribute's name when there is one, unchanged, else the plural of the type name. */
  function GeneratePartitionKey(tableAttribute: Option<TableAttribute>, typeName: string): (r: Result<string, Exception>)
    ensures tableAttribute.Some? ==> r == Ok(tableAttribute.value.tableName)
    ensures tableAttribute.None? ==> r == Pluralize(typeName)
  {
    if tableAttribute.Some? then Ok(tableAttribute.value.tableName) else Pluralize(typeName)
  }

  /** The string the hash is taken of: the two keys joined by an underscore, a null key rendering as nothing. */
  function KeyString(partitionKey: Option<string>, rowKey: Option<string>): (r: string)
    ensures |r| == |Text(partitionKey)| + 1 + |Text(rowKey)|
    ensures r[..|Text(partitionKey)|] == Text(partitionKey) && r[|Text(partitionKey)|] == '_'
    ensures r[|Text(partitionKey)| + 1..] == Text(rowKey)
  {
    Text(partitionKey) + "_" + Text(rowKey)
  }

  function Text(s: Option<string>): string
  {
    if s.None? then "" else s.value
  }

  /** Null or empty. */
  predicate IsNullOrEmpty(s: Option<string>)
  {
    s.None? || s.value == ""
  }

  // ---------------------------------------------------------------------------
  // The pluralisation rule
  // ---------------------------------------------------------------------------

  /** The three forms the rule produces, by the type name's last character. */
  lemma PluralForms(typeName: string)
    requires typeName != []
    ensures IsY(typeName[|typeName| - 1]) ==> Pluralize(typeName) == Ok(typeName[..|typeName| - 1] + "ies")
    ensures IsS(typeName[|typeName| - 1]) ==> Pluralize(typeName) == Ok(typeName)
    ensures !IsY(typeName[|typeName| - 1]) && !IsS(typeName[|typeName| - 1]) ==> Pluralize(typeName) == Ok(typeName + "s")
  {
    var stem := typeName[..|typeName| - 1] + "ies";
    assert stem[|stem| - 1] == 's';
  }

  /** Applying the rule to its own output gives that output back. */
  lemma PluralizeIdempotent(typeName: string)
    requires typeName != []
    ensures Pluralize(Pluralize(typeName).value) == Pluralize(typeName)
  {
    var p := Pluralize(typeName).value;
    assert EndsInS(p);
    PluralForms(p);
  }

  lemma PluralOfUser()
    ensures Pluralize("User") == Ok("Users")
  {
    PluralForms("User");
    assert "User"[3] == 'r';
    assert "User" + "s" == "Users";
  }

  lemma PluralOfCategory()
    ensures Pluralize("Category") == Ok("Categories")
  {
    PluralForms("Category");
    assert "Category"[7] == 'y';
    assert "Category"[..7] + "ies" == "Categories";
  }

  lemma PluralOfAddress()
    ensures Pluralize("Address") == Ok("Address")
  {
    PluralForms("Address");
    assert "Address"[6] == 's';
  }

  /** Distinct key pairs can share the hashed string once a key holds an underscore. */
  lemma KeyStringCollides()
    ensures KeyString(Some("a_"), Some("b")) == KeyString(Some("a"), Some("_b"))
  {
    assert Text(Some("a_")) + "_" + Text(Some("b")) == "a__b";
    assert Text(Some("a")) + "_" + Text(Some("_b")) == "a__b";
  }

  // ---------------------------------------------------------------------------
  // The entity
  // ---------------------------------------------------------------------------

  /**
   * An entity: its two keys, and the facts about its type the constructor reads
   * (the type name and the table attribute on it, if any).
   */
  class TableEntity {
    var partitionKey: Option<string>
    var rowKey: Option<string>
    const typeName: string
    const tableAttribute: Option<TableAttribute>

    /** The state the base class leaves before the constructor body runs. */
    constructor Allocate(typeName: string, tableAttribute: Option<TableAttribute>, partitionKey: Option<string>, rowKey: Option<string>)
      ensures this.typeName == typeName && this.tableAttribute == tableAttribute
      ensures this.partitionKey == partitionKey && this.rowKey == rowKey
    {
      this.typeName := typeName;
      this.tableAttribute := tableAttribute;
      this.partitionKey := partitionKey;
      this.rowKey := rowKey;
    }

    /** The constructor body: a null or empty partition key is replaced by the generated one. */
    method Initialize() returns (r: Outcome<Exception>)
      modifies this
      ensures rowKey == old(rowKey)
      ensures !IsNullOrEmpty(old(partitionKey)) ==> r == Pass && partitionKey == old(partitionKey)
      ensures IsNullOrEmpty(old(partitionKey)) ==>
        match GeneratePartitionKey(tableAttribute, typeName)
        case Ok(key) => r == Pass && partitionKey == Some(key)
        case Err(e) => r == Fail(e) && partitionKey == old(partitionKey)
    {
      r := Pass;
      if IsNullOrEmpty(partitionKey) {
        var generated := GeneratePartitionKey(tableAttribute, typeName);
        if generated.Err? {
          return Fail(generated.error);
        }
        partitionKey := Some(generated.value);
      }
    }

    /** The hash: the runtime's string hash of the key string. */
    function GetHashCode(hash: string -> int): (h: int)
      reads this
      ensures h == hash(KeyString(partitionKey, rowKey))
    {
      hash(KeyString(partitionKey, rowKey))
    }
  }

  /** Entities with equal keys hash equal, whatever else differs between them. */
  lemma EqualKeysHashEqual(a: TableEntity, b: TableEntity, hash: string -> int)
    requires a.partitionKey == b.partitionKey && a.rowKey == b.rowKey
    ensures a.GetHashCode(hash) == b.GetHashCode(hash)
  {
  }
}

/**
 * The two naming attributes. Each constructor refuses a null or empty name and
 * a name holding any whitespace character, and otherwise keeps the name exactly
 * as given in a read-only property.
 */
module Attributes {
  import opened Wrappers
  import opened Expressions

  /** The table name that overrides the pluralised type name. */
  datatype TableAttribute = TableAttribute(tableName: string)

  /** The table whose row key a property holds. */
  datatype ForeignRowKeyAttribute = ForeignRowKeyAttribute(foreignTable: string)

  /** Some character of `s` is whitespace by the runtime's test. */
  predicate HasWhiteSpace(isWhiteSpace: char -> bool, s: string)
  {
    exists i :: 0 <= i < |s| && isWhiteSpace(s[i])
  }

  /** A name both constructors accept: present, non-empty, and free of whitespace. */
  predicate IsValidName(isWhiteSpace: char -> bool, name: string)
  {
    name != [] && forall i :: 0 <= i < |name| ==> !isWhiteSpace(name[i])
  }

  /** The constructor of the table attribute; `None` stands for a null name. */
  function NewTableAttribute(isWhiteSpace: char -> bool, name: Option<string>): (r: Result<TableAttribute, Exception>)
    ensures (name.None? || name.value == []) ==> r == Err(ArgumentException)
    ensures name.Some? && HasWhiteSpace(isWhiteSpace, name.value) ==> r == Err(ArgumentException)
    ensures r.Ok? ==> name.Some? && r.value.tableName == name.value
    ensures r.Ok? ==> IsValidName(isWhiteSpace, r.value.tableName)
  {
    if name.None? || name.value == [] || HasWhiteSpace(isWhiteSpace, name.value) then Err(ArgumentException)
    else Ok(TableAttribute(name.value))
  }

  /** The constructor of the foreign row key attribute; `None` stands for a null name. */
  function NewForeignRowKeyAttribute(isWhiteSpace: char -> bool, name: Option<string>): (r: Result<ForeignRowKeyAttribute, Exception>)
    ensures (name.None? || name.value == []) ==> r == Err(ArgumentException)
    ensures name.Some? && HasWhiteSpace(isWhiteSpace, name.value) ==> r == Err(ArgumentException)
    ensures r.Ok? ==> name.Some? && r.value.foreignTable == name.value
    ensures r.Ok? ==> IsValidName(isWhiteSpace, r.value.foreignTable)
  {
    if name.None? || name.value == [] || HasWhiteSpace(isWhiteSpace, name.value) then Err(ArgumentException)
    else Ok(ForeignRowKeyAttribute(name.value))
  }

  /** The table attribute is built exactly when the name is valid, and then holds that name. */
  lemma TableAttributeBuiltIffValid(isWhiteSpace: char -> bool, name: string)
    ensures NewTableAttribute(isWhiteSpace, Some(name)).Ok? <==> IsValidName(isWhiteSpace, name)
    ensures IsValidName(isWhiteSpace, name) ==> NewTableAttribute(isWhiteSpace, Some(name)) == Ok(TableAttribute(name))
  {
    if !IsValidName(isWhiteSpace, name) && name != [] {
      var i :| 0 <= i < |name| && isWhiteSpace(name[i]);
      assert HasWhiteSpace(isWhiteSpace, name);
    }
  }

  /** The foreign row key attribute is built exactly when the name is valid, and then holds that name. */
  lemma ForeignRowKeyAttributeBuiltIffValid(isWhiteSpace: char -> bool, name: string)
    ensures NewForeignRowKeyAttribute(isWhiteSpace, Some(name)).Ok? <==> IsValidName(isWhiteSpace, name)
    ensures IsValidName(isWhiteSpace, name) ==> NewForeignRowKeyAttribute(isWhiteSpace, Some(name)) == Ok(ForeignRowKeyAttribute(name))
  {
    if !IsValidName(isWhiteSpace, name) && name != [] {
      var i :| 0 <= i < |name| && isWhiteSpace(name[i]);
      assert HasWhiteSpace(isWhiteSpace, name);
    }
  }

  /** A name with a blank in it is refused whatever the runtime counts as whitespace beyond the blank. */
  lemma BlankRefused(isWhiteSpace: char -> bool, prefix: string, suffix: string)
    requires isWhiteSpace(' ')
    ensures NewTableAttribute(isWhiteSpace, Some(prefix + " " + suffix)) == Err(ArgumentException)
    ensures NewForeignRowKeyAttribute(isWhiteSpace, Some(prefix + " " + suffix)) == Err(ArgumentException)
  {
    var name := prefix + " " + suffix;
    assert name[|prefix|] == ' ';
    assert HasWhiteSpace(isWhiteSpace, name);
  }
}

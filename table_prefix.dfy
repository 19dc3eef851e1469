/** The table-name rule shared by the CMS models: a table name gets the
    configured CMS prefix unless it already starts with it. The prefix, read
    from configuration in the package, is a parameter here. */
module CmsTablePrefixed {
  import opened Strings

  /** `isPrefixed`: the table name starts with the prefix, read literally. */
  function IsPrefixed(prefix: string, name: string): (r: bool)
    ensures r <==> |prefix| <= |name| && name == prefix + name[|prefix|..]
  {
    StartsWith(name, prefix)
  }

  /** `getTable`: the prefixed table name. */
  function GetTable(prefix: string, name: string): (r: string)
    ensures StartsWith(r, prefix)
    ensures IsPrefixed(prefix, name) ==> r == name
    ensures !IsPrefixed(prefix, name) ==> r == prefix + name
  {
    if IsPrefixed(prefix, name) then name else prefix + name
  }

  /** The table name is always recoverable: it is either the result itself or
      what follows the prefix in it. */
  lemma {:induction false} GetTableKeepsName(prefix: string, name: string)
    ensures var r := GetTable(prefix, name); r == name || r[|prefix|..] == name
  {
    if !IsPrefixed(prefix, name) {
      assert (prefix + name)[|prefix|..] == name;
    }
  }

  /** Applying the rule to its own result changes nothing. */
  lemma {:induction false} GetTableIdempotent(prefix: string, name: string)
    ensures GetTable(prefix, GetTable(prefix, name)) == GetTable(prefix, name)
  {
    var r := GetTable(prefix, name);
    assert IsPrefixed(prefix, r);
  }

  /** With the default empty prefix every name is kept as it is. */
  lemma {:induction false} EmptyPrefixKeepsName(name: string)
    ensures GetTable("", name) == name
  {
    assert IsPrefixed("", name) by { assert name[..0] == ""; }
  }
}

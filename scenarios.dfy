/** The documents of tree_test.go, built into trees, with the queries and
    search results the tests expect. Object members are taken in the
    order in which the documents write them. */
module Scenarios {
  import opened JsonValue
  import opened Strings
  import opened Tree
  import opened JqPath

  function JohnDoc(): JValue { JObject([("name", JString("John")), ("age", JNumber("30"))]) }
  function JaneDoc(): JValue { JObject([("name", JString("Jane")), ("age", JNumber("25"))]) }
  function UsersList(): JValue { JArray([JohnDoc(), JaneDoc()]) }
  function SettingsDoc(): JValue { JObject([("theme", JString("dark")), ("notifications", JBool(true))]) }

  /** The document of TestBuildJqQuery. */
  function UsersDoc(): JValue { JObject([("users", UsersList()), ("settings", SettingsDoc())]) }

  /** The document of TestBuildJqQueryArrayRoot. */
  function ArrayDoc(): JValue
  {
    JArray([JObject([("name", JString("John"))]), JObject([("name", JString("Jane"))])])
  }

  /** The document of TestNodeMatchesSearch. */
  function SearchDoc(): JValue
  {
    JObject([("users", JArray([JObject([("name", JString("John")), ("age", JNumber("30"))])]))])
  }

  /** The i-th child of a built object is the i-th member, built under its
      own key. */
  lemma FieldChild(fields: seq<(string, JValue)>, key: string, i: nat)
    requires i < |fields|
    ensures i < |Build(JObject(fields), key).children|
    ensures Build(JObject(fields), key).children[i] == Build(fields[i].1, fields[i].0)
  {
  }

  /** The i-th child of a built array is the i-th element, built under the
      decimal key of i. */
  lemma ElementChild(items: seq<JValue>, key: string, i: nat)
    requires i < |items|
    ensures i < |Build(JArray(items), key).children|
    ensures Build(JArray(items), key).children[i] == Build(items[i], NatToString(i))
  {
  }

  /** The root's query is `.`. */
  lemma RootQuery()
    ensures JqQuery(Build(UsersDoc(), ""), []) == "."
  {
  }

  lemma UsersQuery()
    ensures ValidPath(Build(UsersDoc(), ""), [0])
    ensures At(Build(UsersDoc(), ""), [0]) == Build(UsersList(), "users")
    ensures JqQuery(Build(UsersDoc(), ""), [0]) == ".users"
  {
    FieldChild(UsersDoc().fields, "", 0);
    BuildNode(UsersDoc(), "");
    QueryOfField(Build(UsersDoc(), ""), [], 0, "users");
    assert [] + [0] == [0];
  }

  lemma FirstUserQuery()
    ensures ValidPath(Build(UsersDoc(), ""), [0, 0])
    ensures At(Build(UsersDoc(), ""), [0, 0]) == Build(JohnDoc(), "0")
    ensures JqQuery(Build(UsersDoc(), ""), [0, 0]) == ".users[0]"
  {
    UsersQuery();
    ElementChild(UsersList().items, "users", 0);
    BuildNode(UsersList(), "users");
    assert NatToString(0) == "0";
    QueryOfElement(Build(UsersDoc(), ""), [0], 0, "0");
    assert [0] + [0] == [0, 0];
  }

  lemma FirstUserNameQuery()
    ensures ValidPath(Build(UsersDoc(), ""), [0, 0, 0])
    ensures At(Build(UsersDoc(), ""), [0, 0, 0]).key == "name"
    ensures JqQuery(Build(UsersDoc(), ""), [0, 0, 0]) == ".users[0].name"
  {
    FirstUserQuery();
    FieldChild(JohnDoc().fields, "0", 0);
    BuildNode(JohnDoc(), "0");
    BuildNode(JString("John"), "name");
    QueryOfField(Build(UsersDoc(), ""), [0, 0], 0, "name");
    assert [0, 0] + [0] == [0, 0, 0];
  }

  lemma SettingsQuery()
    ensures ValidPath(Build(UsersDoc(), ""), [1])
    ensures At(Build(UsersDoc(), ""), [1]) == Build(SettingsDoc(), "settings")
    ensures JqQuery(Build(UsersDoc(), ""), [1]) == ".settings"
  {
    FieldChild(UsersDoc().fields, "", 1);
    BuildNode(UsersDoc(), "");
    QueryOfField(Build(UsersDoc(), ""), [], 1, "settings");
    assert [] + [1] == [1];
  }

  lemma ThemeQuery()
    ensures ValidPath(Build(UsersDoc(), ""), [1, 0])
    ensures At(Build(UsersDoc(), ""), [1, 0]).key == "theme"
    ensures JqQuery(Build(UsersDoc(), ""), [1, 0]) == ".settings.theme"
  {
    SettingsQuery();
    FieldChild(SettingsDoc().fields, "settings", 0);
    BuildNode(SettingsDoc(), "settings");
    BuildNode(JString("dark"), "theme");
    QueryOfField(Build(UsersDoc(), ""), [1], 0, "theme");
    assert [1] + [0] == [1, 0];
  }

  /** The first element of the root-level array: `[0]` as written, where
      TestBuildJqQueryArrayRoot expects `.[0]`, which the corrected query
      gives. */
  lemma ArrayFirstQuery()
    ensures ValidPath(Build(ArrayDoc(), ""), [0])
    ensures At(Build(ArrayDoc(), ""), [0]) == Build(ArrayDoc().items[0], "0")
    ensures JqQuery(Build(ArrayDoc(), ""), [0]) == "[0]"
    ensures JqQueryIntended(Build(ArrayDoc(), ""), [0]) == ".[0]"
  {
    ElementChild(ArrayDoc().items, "", 0);
    assert NatToString(0) == "0";
    BuiltRootArrayChildAsWritten(ArrayDoc().items, 0);
    BuiltRootArrayChildIntended(ArrayDoc().items, 0);
  }

  /** The second element: `[1]` as written, `.[1]` corrected. */
  lemma ArraySecondQuery()
    ensures ValidPath(Build(ArrayDoc(), ""), [1])
    ensures JqQuery(Build(ArrayDoc(), ""), [1]) == "[1]"
    ensures JqQueryIntended(Build(ArrayDoc(), ""), [1]) == ".[1]"
  {
    assert NatToString(1) == "1";
    BuiltRootArrayChildAsWritten(ArrayDoc().items, 1);
    BuiltRootArrayChildIntended(ArrayDoc().items, 1);
  }

  /** The first element's name: `[0].name` as written. */
  lemma ArrayFirstNameQuery()
    ensures ValidPath(Build(ArrayDoc(), ""), [0, 0])
    ensures JqQuery(Build(ArrayDoc(), ""), [0, 0]) == "[0].name"
  {
    var root := Build(ArrayDoc(), "");
    ArrayFirstQuery();
    FieldChild(ArrayDoc().items[0].fields, "0", 0);
    BuildNode(ArrayDoc().items[0], "0");
    BuildNode(JString("John"), "name");
    QueryOfField(root, [0], 0, "name");
    assert [0] + [0] == [0, 0];
  }

  /** The first element's name corrected: `.[0].name`, as
      TestBuildJqQueryArrayRoot expects. */
  lemma ArrayFirstNameIntended()
    ensures ValidPath(Build(ArrayDoc(), ""), [0, 0])
    ensures JqQueryIntended(Build(ArrayDoc(), ""), [0, 0]) == ".[0].name"
  {
    ArrayFirstNameQuery();
    var q := JqQuery(Build(ArrayDoc(), ""), [0, 0]);
    assert q[0] == '[';
    assert !HasPrefix(q, ".");
  }

  /** The cases of TestNodeMatchesSearch: `users` matches the key of the
      users node, `array` its kind, `john` the value of the name node;
      `nonexistent` matches nothing of the users node. */
  lemma SearchDocMatches()
    ensures var root := Build(SearchDoc(), "");
      && ValidPath(root, [0]) && ValidPath(root, [0, 0, 0])
      && MatchesSearch(At(root, [0]), "users")
      && MatchesSearch(At(root, [0]), "array")
      && MatchesSearch(At(root, [0, 0, 0]), "john")
      && !MatchesSearch(At(root, [0]), "nonexistent")
  {
    SearchDocNodes();
    var root := Build(SearchDoc(), "");
    UsersNodeMatches(At(root, [0]));
    NotFoundInUsersNode(At(root, [0]));
    NameNodeMatches(At(root, [0, 0, 0]));
  }

  /** The users node and the name node of the search document. */
  lemma SearchDocNodes()
    ensures var root := Build(SearchDoc(), "");
      && ValidPath(root, [0]) && ValidPath(root, [0, 0, 0])
      && At(root, [0]).key == "users" && At(root, [0]).Kind() == Array
      && |At(root, [0]).children| == 1
      && At(root, [0, 0, 0]).value == JString("John")
  {
    var root := Build(SearchDoc(), "");
    var users := SearchDoc().fields[0].1;
    var john := users.items[0];
    FieldChild(SearchDoc().fields, "", 0);
    BuildNode(users, "users");
    AtExtend(root, [], 0);
    assert [] + [0] == [0];
    ElementChild(users.items, "users", 0);
    BuildNode(john, NatToString(0));
    AtExtend(root, [0], 0);
    assert [0] + [0] == [0, 0];
    FieldChild(john.fields, NatToString(0), 0);
    BuildNode(JString("John"), "name");
    AtExtend(root, [0, 0], 0);
    assert [0, 0] + [0] == [0, 0, 0];
  }

  /** An array node keyed `users` matches `users` by its key and `array`
      by its kind. */
  lemma UsersNodeMatches(u: Node)
    requires u.key == "users" && u.Kind() == Array
    ensures MatchesSearch(u, "users") && MatchesSearch(u, "array")
  {
    assert Lower("users") == "users";
    MatchesKeyOccurrence(u, "users", 0);
    assert Lower("array") == KindName(u.Kind());
    MatchesOwnKind(u, "array");
  }

  /** A node holding the string `John` matches `john` by its preview. */
  lemma NameNodeMatches(n: Node)
    requires n.value == JString("John")
    ensures MatchesSearch(n, "john")
  {
    assert Preview(n) == "\"John\"";
    assert Lower(Preview(n)) == "\"john\"";
    assert OccursAt(Lower(Preview(n)), Lower("john"), 1);
    ContainsIff(Lower(Preview(n)), Lower("john"));
  }

  /** None of key, preview and kind name of the users node contains
      `nonexistent`. */
  lemma NotFoundInUsersNode(u: Node)
    requires u.key == "users" && u.Kind() == Array && |u.children| == 1
    ensures !MatchesSearch(u, "nonexistent")
  {
    var t := Lower("nonexistent");
    assert |t| == 11;
    assert Preview(u) == "[...] (1 items)";
    assert |Preview(u)| == 15;
    forall j ensures !OccursAt(Lower(Preview(u)), t, j) {
      if 0 <= j <= 4 {
        assert Lower(Preview(u))[j + 1] != t[1];
      }
    }
    NoMatchWhenAbsent(u, "nonexistent");
  }
}

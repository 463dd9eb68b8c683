/** `BridgeMapping` of common.py: validates a loaded configuration document
    into a table from Jira e-mail address to GitHub user id, and looks a
    Jira user up in it. */
module BridgeMapping {
  import opened Outcomes

  /** A configuration document as written. A dict is the list of its items
      as they appear in the text, so a key may repeat; the dict that
      `json.load` builds from it keeps only the last value of each key
      (`DictItems`). Keys are values too, so that a key that is not a string
      can be written down (`json.load` itself only yields string keys). */
  datatype Value =
    | VNone
    | VBool(b: bool)
    | VInt(i: int)
    | VStr(s: string)
    | VList(items: seq<Value>)
    | VDict(entries: seq<(Value, Value)>)

  datatype ConfigError =
    /** The `ValueError` for a missing or non-object `mapping` entry. */
    | MissingMapping
    /** The `ValueError` for a key or value of `mapping` that is not a string. */
    | NonStringEntry
    /** The `TypeError` Python raises when the document itself is not a
        dict and `in` or `[...]` cannot be applied to it. */
    | NotADict

  /** The lookup table: Jira e-mail address to GitHub user id. */
  type Table = map<string, string>

  /** The value stored under `key` in a dict: that of the last item with
      the key, as `json.load` keeps it. */
  function Lookup(entries: seq<(Value, Value)>, key: Value): (r: Option<Value>)
    ensures r.None? <==> forall i :: 0 <= i < |entries| ==> entries[i].0 != key
    ensures r.Some? ==> exists i :: 0 <= i < |entries| && entries[i] == (key, r.value) &&
                                   forall j :: i < j < |entries| ==> entries[j].0 != key
    decreases |entries|
  {
    if |entries| == 0 then None
    else
      var last := entries[|entries| - 1];
      if last.0 == key then Some(last.1)
      else Lookup(entries[..|entries| - 1], key)
  }

  /** `needle` occurs as a contiguous piece of `hay` (Python's `in` on strings). */
  predicate IsSubstring(needle: string, hay: string)
    decreases |hay|
  {
    needle <= hay || (|hay| > 0 && IsSubstring(needle, hay[1..]))
  }

  /** Every item is a pair of strings. */
  predicate AllStringPairs(pairs: seq<(Value, Value)>)
  {
    forall i :: 0 <= i < |pairs| ==> pairs[i].0.VStr? && pairs[i].1.VStr?
  }

  /** Item `i` is the last one with its key. */
  predicate LastForKey(pairs: seq<(Value, Value)>, i: nat)
    requires i < |pairs|
  {
    forall j :: i < j < |pairs| ==> pairs[j].0 != pairs[i].0
  }

  /** The items of the dict `json.load` builds from `entries`: each key once,
      with the value of its last item. */
  function DictItems(entries: seq<(Value, Value)>): (items: seq<(Value, Value)>)
    ensures forall x :: x in items <==>
      exists i :: 0 <= i < |entries| && entries[i] == x && LastForKey(entries, i)
    decreases |entries|
  {
    if |entries| == 0 then []
    else
      var rest := DictItems(entries[1..]);
      assert forall i :: 1 <= i < |entries| ==>
        (LastForKey(entries, i) <==> LastForKey(entries[1..], i - 1));
      assert forall x :: x in rest <==>
        exists i :: 1 <= i < |entries| && entries[i] == x && LastForKey(entries, i) by {
        forall x | x in rest
          ensures exists i :: 1 <= i < |entries| && entries[i] == x && LastForKey(entries, i)
        {
          var i :| 0 <= i < |entries[1..]| && entries[1..][i] == x && LastForKey(entries[1..], i);
          assert entries[i + 1] == x && LastForKey(entries, i + 1);
        }
      }
      if LastForKey(entries, 0) then [entries[0]] + rest else rest
  }

  /** The dict built from `entries` finds the same value under every key. */
  lemma DictItemsLookup(entries: seq<(Value, Value)>, key: Value)
    ensures Lookup(DictItems(entries), key) == Lookup(entries, key)
  {
    var items := DictItems(entries);
    var v := Lookup(entries, key);
    var w := Lookup(items, key);
    if v.Some? {
      var i :| 0 <= i < |entries| && entries[i] == (key, v.value) && LastForKey(entries, i);
      assert (key, v.value) in items;
      assert w.Some?;
      var k :| 0 <= k < |items| && items[k] == (key, w.value);
      assert items[k] in items;
      var i' :| 0 <= i' < |entries| && entries[i'] == (key, w.value) && LastForKey(entries, i');
      assert i == i';
    } else {
      forall k | 0 <= k < |items|
        ensures items[k].0 != key
      {
        assert items[k] in items;
      }
    }
  }

  /** The value under every key of the dict built from `entries` is a
      string, and so is the key. */
  predicate LiveStringPairs(entries: seq<(Value, Value)>)
  {
    forall i :: 0 <= i < |entries| && LastForKey(entries, i) ==>
      entries[i].0.VStr? && entries[i].1.VStr?
  }

  lemma DictItemsStringPairs(entries: seq<(Value, Value)>)
    ensures AllStringPairs(DictItems(entries)) <==> LiveStringPairs(entries)
  {
    var items := DictItems(entries);
    if AllStringPairs(items) {
      forall i | 0 <= i < |entries| && LastForKey(entries, i)
        ensures entries[i].0.VStr? && entries[i].1.VStr?
      {
        assert entries[i] in items;
      }
    }
    if LiveStringPairs(entries) {
      forall k | 0 <= k < |items|
        ensures items[k].0.VStr? && items[k].1.VStr?
      {
        assert items[k] in items;
      }
    }
  }

  /** The loop over `mapping.items()`: one rejected item rejects the whole
      configuration; otherwise every item is written into the table, a later
      item overriding an earlier one with the same key. */
  function BuildTable(pairs: seq<(Value, Value)>): (r: Result<Table, ConfigError>)
    ensures r.Ok? <==> AllStringPairs(pairs)
    ensures r.Err? ==> r.error == NonStringEntry
    decreases |pairs|
  {
    if |pairs| == 0 then Ok(map[])
    else
      var front := pairs[..|pairs| - 1];
      var last := pairs[|pairs| - 1];
      match BuildTable(front)
      case Err(e) => Err(e)
      case Ok(table) =>
        if last.0.VStr? && last.1.VStr? then
          Ok(table[last.0.s := last.1.s])
        else Err(NonStringEntry)
  }

  /** The table built from string pairs holds exactly their keys, each
      with the value of its last item. */
  lemma {:induction false} BuildTableContents(pairs: seq<(Value, Value)>)
    requires AllStringPairs(pairs)
    ensures forall k :: k in BuildTable(pairs).value <==> Lookup(pairs, VStr(k)).Some?
    ensures forall k :: k in BuildTable(pairs).value ==>
      Lookup(pairs, VStr(k)) == Some(VStr(BuildTable(pairs).value[k]))
    decreases |pairs|
  {
    if |pairs| > 0 {
      var front := pairs[..|pairs| - 1];
      assert AllStringPairs(front) by {
        assert forall i :: 0 <= i < |front| ==> front[i] == pairs[i];
      }
      BuildTableContents(front);
    }
  }

  /** `BridgeMapping.__init__` after the document is read: the document must
      be a dict whose `mapping` entry is itself a dict of strings. */
  function Load(doc: Value): (r: Result<Table, ConfigError>)
    ensures r.Ok? <==> (exists pairs :: MappingItems(doc, pairs) && LiveStringPairs(pairs))
    ensures (exists pairs :: MappingItems(doc, pairs) && !LiveStringPairs(pairs)) ==> r == Err(NonStringEntry)
    ensures (doc.VDict? && Lookup(doc.entries, VStr("mapping")).None?) ==> r == Err(MissingMapping)
    ensures (doc.VDict? && Lookup(doc.entries, VStr("mapping")).Some? &&
             !Lookup(doc.entries, VStr("mapping")).value.VDict?) ==> r == Err(MissingMapping)
    ensures !doc.VDict? && !doc.VList? && !doc.VStr? ==> r == Err(NotADict)
    ensures (doc.VList? || doc.VStr?) ==> r.Err?
    ensures doc.VStr? && !IsSubstring("mapping", doc.s) ==> r == Err(MissingMapping)
    ensures doc.VList? && VStr("mapping") !in doc.items ==> r == Err(MissingMapping)
  {
    match doc
    case VDict(entries) =>
      (match Lookup(entries, VStr("mapping"))
       case Some(VDict(pairs)) =>
         DictItemsStringPairs(pairs);
         BuildTable(DictItems(pairs))
       case _ => Err(MissingMapping))
    case VList(items) =>
      if VStr("mapping") in items then Err(NotADict) else Err(MissingMapping)
    case VStr(s) =>
      if IsSubstring("mapping", s) then Err(NotADict) else Err(MissingMapping)
    case _ => Err(NotADict)
  }

  /** The `mapping` entry of an accepted document. */
  predicate MappingItems(doc: Value, pairs: seq<(Value, Value)>)
  {
    doc.VDict? && Lookup(doc.entries, VStr("mapping")) == Some(VDict(pairs))
  }

  /** An accepted document yields a table holding exactly the configured
      pairs: `email` maps to `id` if and only if the last `mapping` item
      with key `email` has value `id`. */
  lemma {:induction false} LoadedTableIsConfigured(doc: Value, pairs: seq<(Value, Value)>, email: string, id: string)
    requires MappingItems(doc, pairs) && Load(doc).Ok?
    ensures (email in Load(doc).value && Load(doc).value[email] == id) <==>
      exists i :: 0 <= i < |pairs| && pairs[i] == (VStr(email), VStr(id)) && LastForKey(pairs, i)
  {
    var table := Load(doc).value;
    DictItemsStringPairs(pairs);
    assert AllStringPairs(DictItems(pairs)) && table == BuildTable(DictItems(pairs)).value;
    BuildTableContents(DictItems(pairs));
    DictItemsLookup(pairs, VStr(email));
    var v := Lookup(pairs, VStr(email));
    if v.Some? {
      var i :| 0 <= i < |pairs| && pairs[i] == (VStr(email), v.value) &&
               forall j :: i < j < |pairs| ==> pairs[j].0 != VStr(email);
      assert LastForKey(pairs, i);
      if exists i' :: 0 <= i' < |pairs| && pairs[i'] == (VStr(email), VStr(id)) && LastForKey(pairs, i') {
        var i' :| 0 <= i' < |pairs| && pairs[i'] == (VStr(email), VStr(id)) && LastForKey(pairs, i');
        assert i == i';
      }
    } else {
      assert email !in table;
    }
  }

  /** The Jira user as `map` sees it: only the e-mail address is consulted. */
  datatype JiraUser = JiraUser(id: string, name: string, email: string)

  /** The table lookup of `BridgeMapping.map`: no GitHub id for an
      unconfigured e-mail address, and the stored id otherwise. */
  function Resolve(table: Table, user: JiraUser): (r: Option<string>)
    ensures r.None? <==> user.email !in table
    ensures r.Some? ==> r.value == table[user.email]
  {
    if user.email !in table then None else Some(table[user.email])
  }

  /** End to end: after loading, a Jira user resolves to `id` exactly when
      the last `mapping` item for their e-mail address stores `id`, and to
      nothing when their address is not configured. */
  lemma {:induction false} ResolveAfterLoad(doc: Value, pairs: seq<(Value, Value)>, user: JiraUser, id: string)
    requires MappingItems(doc, pairs) && Load(doc).Ok?
    ensures Resolve(Load(doc).value, user) == Some(id) <==>
      exists i :: 0 <= i < |pairs| && pairs[i] == (VStr(user.email), VStr(id)) && LastForKey(pairs, i)
    ensures Resolve(Load(doc).value, user).None? <==>
      forall i :: 0 <= i < |pairs| ==> pairs[i].0 != VStr(user.email)
  {
    LoadedTableIsConfigured(doc, pairs, user.email, id);
    DictItemsStringPairs(pairs);
    BuildTableContents(DictItems(pairs));
    DictItemsLookup(pairs, VStr(user.email));
  }

  /** A repeated key counts only with its last value: an earlier item that
      is not a string pair does not reject the configuration. */
  lemma OverriddenItemIgnored()
    ensures Load(VDict([(VStr("mapping"), VDict([(VStr("a@x"), VInt(5)), (VStr("a@x"), VStr("gh"))]))]))
         == Ok(map["a@x" := "gh"])
  {
    var pairs := [(VStr("a@x"), VInt(5)), (VStr("a@x"), VStr("gh"))];
    assert pairs[1].0 == pairs[0].0;
    assert !LastForKey(pairs, 0);
    assert LastForKey(pairs, 1);
    assert DictItems(pairs) == [(VStr("a@x"), VStr("gh"))] by {
      assert DictItems(pairs[1..]) == [pairs[1]];
    }
    assert BuildTable([(VStr("a@x"), VStr("gh"))]) == Ok(map["a@x" := "gh"]);
  }
}

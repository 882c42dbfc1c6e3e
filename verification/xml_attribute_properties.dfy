/** The named arguments recorded for one custom attribute
    (XMLAttributeProperties.cs): a table from property name to value, where
    a property written with a `null` marker has no value. Loading drops the
    one property each well-known attribute type is known to vary in;
    comparing walks the second side's properties only. */
module AttributeProperties {
  import opened Wrappers
  import opened Tables
  import opened XmlNodes
  import opened Counters
  import opened XmlData

  /** Property name to value; `None` is a property recorded as `null`. */
  type PropTable = Table<string, Option<string>>

  /** The static table of properties that are not compared, by attribute type. */
  function IgnoredProperty(attribute: string): (r: Option<string>)
    ensures r.Some? ==> r.value in {"KeyFile", "Company", "Configuration", "Copyright", "Product",
                                    "Trademark", "InformationalVersion", "Message", "Description"}
  {
    if attribute == "System.Reflection.AssemblyKeyFileAttribute" then Some("KeyFile")
    else if attribute == "System.Reflection.AssemblyCompanyAttribute" then Some("Company")
    else if attribute == "System.Reflection.AssemblyConfigurationAttribute" then Some("Configuration")
    else if attribute == "System.Reflection.AssemblyCopyrightAttribute" then Some("Copyright")
    else if attribute == "System.Reflection.AssemblyProductAttribute" then Some("Product")
    else if attribute == "System.Reflection.AssemblyTrademarkAttribute" then Some("Trademark")
    else if attribute == "System.Reflection.AssemblyInformationalVersionAttribute" then Some("InformationalVersion")
    else if attribute == "System.ObsoleteAttribute" then Some("Message")
    else if attribute == "System.IO.IODescriptionAttribute" then Some("Description")
    else if attribute == "System.Diagnostics.MonitoringDescriptionAttribute" then Some("Description")
    else None
  }

  /** The value a loaded `property` element stands for. */
  function StoredValue(n: Node): Option<string> {
    if "null" in n.attrs then None else Some(GetAttribute(n, "value"))
  }

  /** The names of the properties that loading keeps, as a set. */
  function KeptNames(ignored: Option<string>, cs: seq<Node>): set<string> {
    if |cs| == 0 then {}
    else
      (if "name" in cs[0].attrs && ignored != Some(cs[0].attrs["name"]) then {cs[0].attrs["name"]} else {})
      + KeptNames(ignored, cs[1..])
  }

  /** `LoadData` for the `properties` element of the attribute (or key)
      `attribute`: every child must have a `name`; the ignored name is
      skipped; a `null` marker stores no value, otherwise `value` is
      required; names are added with `Hashtable.Add`, so a repeated name
      throws. */
  function LoadProps(attribute: string, pNode: Node): (r: Result<PropTable>)
    ensures r.Ok? ==> Distinct(r.value)
    ensures r.Ok? ==> Keys(r.value) == KeptNames(IgnoredProperty(attribute), pNode.children)
    ensures r.Ok? && IgnoredProperty(attribute).Some? ==> IgnoredProperty(attribute).value !in Keys(r.value)
  {
    IgnoredNeverKept(IgnoredProperty(attribute), pNode.children);
    LoadPropList(IgnoredProperty(attribute), pNode.children, [])
  }

  function LoadPropList(ignored: Option<string>, cs: seq<Node>, t: PropTable): (r: Result<PropTable>)
    ensures r.Ok? && Distinct(t) ==> Distinct(r.value)
    ensures r.Ok? ==> Keys(r.value) == Keys(t) + KeptNames(ignored, cs)
    ensures r.Ok? ==> forall k :: k in Keys(t) ==> Get(r.value, k) == Get(t, k)
    decreases |cs|
  {
    if |cs| == 0 then Ok(t)
    else
      var n := cs[0];
      if "name" !in n.attrs then Err(NullReferenceException)
      else
        var name := n.attrs["name"];
        if ignored == Some(name) then LoadPropList(ignored, cs[1..], t)
        else if "null" in n.attrs then
          var t' :- Add(t, name, None);
          LoadPropList(ignored, cs[1..], t')
        else if "value" !in n.attrs then Err(NullReferenceException)
        else
          var t' :- Add(t, name, Some(n.attrs["value"]));
          LoadPropList(ignored, cs[1..], t')
  }

  lemma {:induction false} IgnoredNeverKept(ignored: Option<string>, cs: seq<Node>)
    ensures ignored.Some? ==> ignored.value !in KeptNames(ignored, cs)
    decreases |cs|
  {
    if |cs| > 0 {
      IgnoredNeverKept(ignored, cs[1..]);
    }
  }

  /** Each kept property is stored with the value its element stands for:
      no value exactly when it carries a `null` marker. */
  lemma {:induction false} LoadedValues(ignored: Option<string>, cs: seq<Node>, t: PropTable, i: nat)
    requires i < |cs| && "name" in cs[i].attrs && ignored != Some(cs[i].attrs["name"])
    ensures var r := LoadPropList(ignored, cs, t);
      r.Ok? ==> Get(r.value, cs[i].attrs["name"]) == Some(StoredValue(cs[i]))
    decreases |cs|
  {
    var n := cs[0];
    if "name" in n.attrs {
      var name := n.attrs["name"];
      if ignored == Some(name) {
        LoadedValues(ignored, cs[1..], t, i - 1);
      } else {
        var v := if "null" in n.attrs then None else Some(GetAttribute(n, "value"));
        if name !in Keys(t) && ("null" in n.attrs || "value" in n.attrs) {
          var t' := Put(t, name, v);
          if i > 0 {
            LoadedValues(ignored, cs[1..], t', i - 1);
          }
        }
      }
    }
  }

  /** A property name kept twice makes loading throw. */
  lemma {:induction false} DuplicateNameThrows(ignored: Option<string>, cs: seq<Node>, t: PropTable, i: nat, j: nat)
    requires i < j < |cs| && "name" in cs[i].attrs && "name" in cs[j].attrs
    requires cs[i].attrs["name"] == cs[j].attrs["name"] && ignored != Some(cs[i].attrs["name"])
    ensures LoadPropList(ignored, cs, t).Err?
    decreases |cs|
  {
    if i > 0 {
      var n := cs[0];
      if "name" in n.attrs && n.attrs["name"] !in Keys(t) && ignored != Some(n.attrs["name"])
         && ("null" in n.attrs || "value" in n.attrs) {
        DuplicateNameThrows(ignored, cs[1..], Put(t, n.attrs["name"], StoredValue(n)), i - 1, j - 1);
      } else if "name" in n.attrs && ignored == Some(n.attrs["name"]) {
        DuplicateNameThrows(ignored, cs[1..], t, i - 1, j - 1);
      }
    } else {
      var name := cs[0].attrs["name"];
      if name !in Keys(t) && ("null" in cs[0].attrs || "value" in cs[0].attrs) {
        KeyStaysThrows(ignored, cs[1..], Put(t, name, StoredValue(cs[0])), j - 1);
      }
    }
  }

  /** Once a name is in the table, a later element of that name throws. */
  lemma {:induction false} KeyStaysThrows(ignored: Option<string>, cs: seq<Node>, t: PropTable, j: nat)
    requires j < |cs| && "name" in cs[j].attrs && cs[j].attrs["name"] in Keys(t) && ignored != Some(cs[j].attrs["name"])
    ensures LoadPropList(ignored, cs, t).Err?
    decreases |cs|
  {
    if j > 0 {
      var n := cs[0];
      if "name" in n.attrs && ignored == Some(n.attrs["name"]) {
        KeyStaysThrows(ignored, cs[1..], t, j - 1);
      } else if "name" in n.attrs && n.attrs["name"] !in Keys(t) && ("null" in n.attrs || "value" in n.attrs) {
        KeyStaysThrows(ignored, cs[1..], Put(t, n.attrs["name"], StoredValue(n)), j - 1);
      }
    }
  }

  /** This side's value for `key`: `null` both when absent and when recorded as `null`. */
  function Lookup(own: PropTable, key: string): Option<string> {
    var v := Get(own, key);
    if v.Some? then v.value else None
  }

  /** The warning one property of the second side produces against this
      side's value `mine`, if any. */
  function PropWarning(key: string, theirs: Option<string>, mine: Option<string>): (r: seq<string>)
    ensures |r| <= 1
  {
    if theirs.None? then
      (if mine.Some? then ["Property '" + key + "' is 'null' and should be '" + mine.value + "'"] else [])
    else if theirs == mine then []
    else ["Property '" + key + "' is '" + theirs.value + "' and should be '" + (if mine.Some? then mine.value else "null") + "'"]
  }

  /** A property warns exactly when the two sides' values differ. */
  lemma PropWarningIffDiffers(key: string, theirs: Option<string>, mine: Option<string>)
    ensures |PropWarning(key, theirs, mine)| == (if theirs != mine then 1 else 0)
  {
  }

  /** `CompareTo`'s warnings: one per property of the second side whose
      value differs from this side's, in the second side's order. */
  function PropWarnings(own: PropTable, other: PropTable): (r: seq<string>)
    ensures |r| <= |other|
    ensures |other| == 0 ==> r == []
  {
    if |other| == 0 then []
    else PropWarning(other[0].key, other[0].value, Lookup(own, other[0].key)) + PropWarnings(own, other[1..])
  }

  /** The number of second-side properties whose value differs from this side's. */
  function DiffCount(own: PropTable, other: PropTable): nat {
    if |other| == 0 then 0
    else (if other[0].value != Lookup(own, other[0].key) then 1 else 0) + DiffCount(own, other[1..])
  }

  lemma {:induction false} PropWarningsCount(own: PropTable, other: PropTable)
    ensures |PropWarnings(own, other)| == DiffCount(own, other)
    decreases |other|
  {
    if |other| > 0 {
      PropWarningIffDiffers(other[0].key, other[0].value, Lookup(own, other[0].key));
      PropWarningsCount(own, other[1..]);
    }
  }

  /** Comparing a property table with itself warns about nothing. */
  lemma {:induction false} SameTableNoWarnings(t: PropTable, other: PropTable)
    requires Distinct(other)
    requires forall k :: k in Keys(other) ==> Get(t, k) == Get(other, k)
    ensures DiffCount(t, other) == 0
    decreases |other|
  {
    if |other| > 0 {
      assert Get(other, other[0].key) == Some(other[0].value);
      assert forall k :: k in Keys(other[1..]) ==> Get(other[1..], k) == Get(other, k) by {
        forall k | k in Keys(other[1..])
          ensures Get(other[1..], k) == Get(other, k)
        {
          assert k != other[0].key;
        }
      }
      SameTableNoWarnings(t, other[1..]);
    }
  }

  /** `XMLAttributeProperties.CompareTo`: the warnings are recorded on
      `parent`, and only the warning count changes. */
  function CompareProps(own: PropTable, other: PropTable, parent: Node, c: Counters): (r: (Node, Counters))
    ensures r.1 == c.(Warning := c.Warning + DiffCount(own, other))
    ensures Warnings(r.0) == Warnings(parent) + PropWarnings(own, other)
  {
    PropWarningsCount(own, other);
    AddWarningsAppends(parent, c, PropWarnings(own, other));
    AddWarnings(parent, c, PropWarnings(own, other))
  }
}

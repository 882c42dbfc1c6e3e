/** Parameter signatures (Parameters.cs): the comma-separated list of
    cleaned parameter type names that names a method in the API
    description and orders its overloads. */
module Signatures {
  import opened Strings
  import opened TypeNames
  import opened Metadata

  /** `Utils.CleanupTypeName(TypeReference)`: the string overload applied
      to the type's full name. */
  function CleanupTypeRef(t: TypeRef): string {
    CleanupTypeName(t.FullName())
  }

  /** The modifier a parameter is written with: only by-reference
      parameters get one, `in` taking precedence over `out`. */
  function Modifier(p: ParamDef): (r: string)
    ensures !p.paramType.isByReference ==> r == ""
    ensures p.paramType.isByReference && p.attributes & ParamIn != 0 ==> r == "in"
    ensures p.paramType.isByReference && p.attributes & ParamIn == 0 && p.attributes & ParamOut != 0 ==> r == "out"
    ensures r == "" || r == "in" || r == "out"
  {
    if p.paramType.isByReference then
      if p.attributes & ParamIn != 0 then "in"
      else if p.attributes & ParamOut != 0 then "out"
      else ""
    else ""
  }

  /** One parameter's entry: a by-reference `in` parameter is written
      "in T&", an `out` one "out T&" (In wins when both flags are set), and
      any other parameter as its bare cleaned type name, whatever its
      flags. */
  function ParamText(p: ParamDef): (r: string)
    ensures EndsWith(r, CleanupTypeRef(p.paramType))
    ensures !p.paramType.isByReference ==> r == CleanupTypeRef(p.paramType)
    ensures p.paramType.isByReference && p.attributes & ParamIn != 0 ==> r == "in " + CleanupTypeRef(p.paramType)
    ensures p.paramType.isByReference && p.attributes & ParamIn == 0 && p.attributes & ParamOut != 0 ==>
      r == "out " + CleanupTypeRef(p.paramType)
  {
    var m := Modifier(p);
    var r := (if |m| > 0 then m + " " else "") + CleanupTypeRef(p.paramType);
    assert r[|r| - |CleanupTypeRef(p.paramType)|..] == CleanupTypeRef(p.paramType);
    r
  }

  function ParamTexts(ps: seq<ParamDef>): (r: seq<string>)
    ensures |r| == |ps|
    ensures forall i :: 0 <= i < |ps| ==> r[i] == ParamText(ps[i])
  {
    if |ps| == 0 then [] else ParamTexts(ps[..|ps| - 1]) + [ParamText(ps[|ps| - 1])]
  }

  /** `Parameters.GetSignature`: the parameter entries in order, separated
      by ", "; a null or empty list gives the empty string. */
  function GetSignature(ps: seq<ParamDef>): (r: string)
    ensures |ps| == 0 ==> r == ""
    ensures |ps| == 1 ==> r == ParamText(ps[0])
  {
    Join(ParamTexts(ps), ", ")
  }

  /** The StringBuilder loop of `GetSignature`. */
  method BuildSignature(ps: seq<ParamDef>) returns (r: string)
    ensures r == GetSignature(ps)
  {
    r := "";
    var i := 0;
    while i < |ps|
      invariant 0 <= i <= |ps|
      invariant r == GetSignature(ps[..i])
    {
      SignatureStep(ps, i);
      r := if i > 0 then r + ", " + ParamText(ps[i]) else ParamText(ps[i]);
      i := i + 1;
    }
    assert ps[..i] == ps;
  }

  lemma SignatureStep(ps: seq<ParamDef>, i: nat)
    requires i < |ps|
    ensures GetSignature(ps[..i + 1]) ==
      if i == 0 then ParamText(ps[i]) else GetSignature(ps[..i]) + ", " + ParamText(ps[i])
  {
    SignatureAppend(ps[..i], ps[i]);
    assert ps[..i + 1] == ps[..i] + [ps[i]];
  }

  /** Appending a parameter appends ", " and its entry (just its entry to
      an empty list). */
  lemma SignatureAppend(ps: seq<ParamDef>, p: ParamDef)
    ensures GetSignature(ps + [p]) == if |ps| == 0 then ParamText(p) else GetSignature(ps) + ", " + ParamText(p)
  {
    var ts := ParamTexts(ps + [p]);
    assert (ps + [p])[..|ps|] == ps;
    assert ts == ParamTexts(ps) + [ParamText(p)];
    JoinAppend(ParamTexts(ps), ParamText(p), ", ");
  }

  lemma {:induction false} JoinAppend(parts: seq<string>, x: string, sep: string)
    ensures Join(parts + [x], sep) == if |parts| == 0 then x else Join(parts, sep) + sep + x
  {
    if |parts| > 1 {
      assert (parts + [x])[1..] == parts[1..] + [x];
      JoinAppend(parts[1..], x, sep);
    } else if |parts| == 1 {
      assert (parts + [x])[1..] == [x];
    }
  }

  /** A signature contains none of the characters type-name cleanup
      removes: modifiers and separators have none, and every type name is
      cleaned. */
  lemma {:induction false} SignatureClean(ps: seq<ParamDef>)
    ensures !HasCleanupChar(GetSignature(ps))
    decreases |ps|
  {
    if |ps| > 0 {
      var init := ps[..|ps| - 1];
      var p := ps[|ps| - 1];
      assert ps == init + [p];
      SignatureClean(init);
      SignatureAppend(init, p);
      ParamTextClean(p);
      var s := GetSignature(ps);
      forall i | 0 <= i < |s| ensures !IsCleanupChar(s[i]) {
        if |init| > 0 {
          var a := GetSignature(init);
          assert s == a + ", " + ParamText(p);
          if i < |a| {
            assert s[i] == a[i];
          } else if i >= |a| + 2 {
            assert s[i] == ParamText(p)[i - |a| - 2];
          }
        }
      }
    }
  }

  lemma ParamTextClean(p: ParamDef)
    ensures !HasCleanupChar(ParamText(p))
  {
    var m := Modifier(p);
    var c := CleanupTypeRef(p.paramType);
    var t := ParamText(p);
    forall i | 0 <= i < |t| ensures !IsCleanupChar(t[i]) {
      if |m| > 0 {
        assert t == m + " " + c;
        if i > |m| {
          assert t[i] == c[i - |m| - 1];
        }
      } else {
        assert t == c;
      }
    }
  }
}

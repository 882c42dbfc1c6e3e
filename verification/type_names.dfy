/** Type-name cleanup (Utils.cs): the names Cecil prints for generic
    instances and nested types use `<`, `>` and `/`, which the XML output
    replaces by `[`, `]` and `+`. */
module TypeNames {

  /** The characters `CleanupTypeName` rewrites. */
  predicate IsCleanupChar(c: char) {
    c == '<' || c == '>' || c == '/'
  }

  /** Whether any character of `t` needs rewriting (`IndexOfAny != -1`). */
  predicate HasCleanupChar(t: string) {
    exists i :: 0 <= i < |t| && IsCleanupChar(t[i])
  }

  /** The rewrite of a single character: brackets for angle brackets, `+`
      for the nested-type separator, everything else kept. */
  function CleanChar(c: char): (r: char)
    ensures !IsCleanupChar(r)
    ensures !IsCleanupChar(c) ==> r == c
  {
    match c
    case '<' => '['
    case '>' => ']'
    case '/' => '+'
    case _ => c
  }

  /** `Utils.CleanupTypeName(string)`: a name without any of the three
      characters comes back as it is; otherwise every character is
      rewritten one for one. */
  function CleanupTypeName(t: string): (r: string)
    ensures |r| == |t|
    ensures forall i :: 0 <= i < |t| ==> r[i] == CleanChar(t[i])
    ensures !HasCleanupChar(r)
  {
    if !HasCleanupChar(t) then t
    else seq(|t|, i requires 0 <= i < |t| => CleanChar(t[i]))
  }

  /** The StringBuilder loop of `CleanupTypeName`, character by character;
      it produces the same name as the functional definition. */
  method BuildCleanName(t: string) returns (r: string)
    ensures |r| == |t|
    ensures forall i :: 0 <= i < |t| ==> r[i] == CleanChar(t[i])
    ensures !HasCleanupChar(r)
  {
    r := [];
    var i := 0;
    while i < |t|
      invariant 0 <= i <= |t|
      invariant |r| == i
      invariant forall j :: 0 <= j < i ==> r[j] == CleanChar(t[j])
    {
      r := r + [CleanChar(t[i])];
      i := i + 1;
    }
  }

  /** A cleaned name is its own cleanup: applying it twice changes nothing. */
  lemma CleanupIdempotent(t: string)
    ensures CleanupTypeName(CleanupTypeName(t)) == CleanupTypeName(t)
  {
    var once := CleanupTypeName(t);
    assert !HasCleanupChar(once);
  }

  /** A name is left alone exactly when it has nothing to rewrite. */
  lemma CleanupFixedIff(t: string)
    ensures CleanupTypeName(t) == t <==> !HasCleanupChar(t)
  {
    if HasCleanupChar(t) {
      var i :| 0 <= i < |t| && IsCleanupChar(t[i]);
      assert CleanupTypeName(t)[i] != t[i];
    }
  }

  /** The rewrite loses information: a nested-type name and a name that
      already spells the separator as `+` come out the same. */
  lemma CleanupNotInjective()
    ensures "A/B" != "A+B"
    ensures CleanupTypeName("A/B") == CleanupTypeName("A+B")
  {
    assert CleanupTypeName("A/B")[1] == '+';
    assert !HasCleanupChar("A+B") by {
      forall i | 0 <= i < 3 ensures !IsCleanupChar("A+B"[i]) { }
    }
    assert CleanupTypeName("A/B") == "A+B";
  }
}

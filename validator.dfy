/**
  `TypeValidator` (validator.py:75-204): splits the annotation into candidate names,
  resolves each against the allow-listed namespaces, rewrites the working string
  `validated_type` name by name, and builds the `ValidationResult`.

  The namespace lookups of the foreign `safelib` library are parameters:
    - `valid(name)` stands for `safelib.valid(importer.get_entity(name))`;
    - `info(name)` stands for `safelib.get_entity_info(name)`: `None` when it returns a falsy
      value, `Some(origin)` otherwise, with `origin == ""` for a falsy origin.
*/
module Validator {
  import opened Wrappers
  import opened Scanner
  import opened ScannerLemmas
  import opened Rewriter
  import opened Results

  /** `BUILTIN_NAMESPACES` (validator.py:9). */
  const BuiltinNamespaces: seq<string> := ["builtins", "typing", "typing_extensions"]

  predicate NoDup(xs: seq<string>) {
    forall i, j :: 0 <= i < j < |xs| ==> xs[i] != xs[j]
  }

  /** `only` (validator.py:89-99): the distinct non-empty values of `xs`. Python's `set`
      gives them in hash order; this model keeps first occurrences in order, and the
      contract promises no order. */
  function Only(xs: seq<string>): (r: seq<string>)
    ensures NoDup(r) && "" !in r
    ensures forall x :: x in r <==> x in xs && x != ""
    decreases |xs|
  {
    if xs == [] then []
    else
      var init := xs[..|xs| - 1];
      var x := xs[|xs| - 1];
      assert xs == init + [x];
      var r := Only(init);
      if x == "" || x in r then r else r + [x]
  }


  /** The guard at validator.py:154 never holds for a candidate: an identifier has no `.`,
      and neither has any allow-listed namespace. */
  lemma GuardNeverFires(t: string)
    requires IsIdentifier(t)
    ensures !('.' in t && t in BuiltinNamespaces)
  {
  }

  /** `invalid_names` after resolving `cands` in order: a name the resolver rejects is
      inserted at the front (validator.py:156-158). */
  function InvalidNames(cands: seq<string>, valid: string -> bool): seq<string>
    decreases |cands|
  {
    if cands == [] then []
    else
      var rest := InvalidNames(cands[..|cands| - 1], valid);
      var t := cands[|cands| - 1];
      if valid(t) then rest else [t] + rest
  }

  /** The rejected names in processing order. */
  function Rejected(cands: seq<string>, valid: string -> bool): seq<string>
    decreases |cands|
  {
    if cands == [] then [] else (if valid(cands[0]) then [] else [cands[0]]) + Rejected(cands[1..], valid)
  }

  function Reverse(xs: seq<string>): seq<string>
    decreases |xs|
  {
    if xs == [] then [] else Reverse(xs[1..]) + [xs[0]]
  }

  /** `type_map` after resolving `cands` in order (validator.py:160-172): a name whose
      entity info is falsy gets no entry; otherwise it maps to its origin, `""` included. */
  function TypeMap(cands: seq<string>, info: string -> Option<string>): map<string, string>
    decreases |cands|
  {
    if cands == [] then map[]
    else
      var m := TypeMap(cands[..|cands| - 1], info);
      var t := cands[|cands| - 1];
      match info(t)
      case None => m
      case Some(origin) => m[t := origin]
  }

  predicate AllIdentifiers(cands: seq<string>) {
    forall t :: t in cands ==> IsIdentifier(t)
  }

  /** `validated_type` after resolving `cands` in order, starting from `text`: every name with
      entity info is substituted by its qualified form (validator.py:160-175). The validity
      of the name plays no part. */
  function Rewritten(text: string, cands: seq<string>, info: string -> Option<string>): string
    requires AllIdentifiers(cands)
    decreases |cands|
  {
    if cands == [] then text
    else
      var prev := Rewritten(text, cands[..|cands| - 1], info);
      var t := cands[|cands| - 1];
      match info(t)
      case None => prev
      case Some(origin) => Substitute(prev, t, Qualified(origin, t))
  }

  /** The names of `cands` that have a non-empty origin, in order. */
  function Qualifying(cands: seq<string>, info: string -> Option<string>): seq<string>
    decreases |cands|
  {
    if cands == [] then []
    else
      var t := cands[|cands| - 1];
      Qualifying(cands[..|cands| - 1], info) + (if info(t).Some? && info(t).value != "" then [t] else [])
  }

  /** `invalid_names` holds every rejected candidate and nothing else: resolving one name
      never stops the others from being resolved. */
  lemma {:induction false} InvalidNamesMembers(cands: seq<string>, valid: string -> bool, x: string)
    ensures x in InvalidNames(cands, valid) <==> x in cands && !valid(x)
    decreases |cands|
  {
    if cands != [] {
      var init := cands[..|cands| - 1];
      assert cands == init + [cands[|cands| - 1]];
      InvalidNamesMembers(init, valid, x);
    }
  }

  /** Each rejected candidate is listed once. */
  lemma {:induction false} InvalidNamesNoDup(cands: seq<string>, valid: string -> bool)
    requires NoDup(cands)
    ensures NoDup(InvalidNames(cands, valid))
    decreases |cands|
  {
    if cands != [] {
      var init := cands[..|cands| - 1];
      var t := cands[|cands| - 1];
      assert NoDup(init);
      InvalidNamesNoDup(init, valid);
      InvalidNamesMembers(init, valid, t);
      assert t !in init;
    }
  }

  lemma {:induction false} RejectedAppend(cands: seq<string>, t: string, valid: string -> bool)
    ensures Rejected(cands + [t], valid) == Rejected(cands, valid) + (if valid(t) then [] else [t])
    decreases |cands|
  {
    if cands != [] {
      assert (cands + [t])[1..] == cands[1..] + [t];
      RejectedAppend(cands[1..], t, valid);
    }
  }

  lemma {:induction false} ReverseAppend(xs: seq<string>, ys: seq<string>)
    ensures Reverse(xs + ys) == Reverse(ys) + Reverse(xs)
    decreases |xs|
  {
    if xs == [] {
      assert xs + ys == ys;
    } else {
      assert (xs + ys)[1..] == xs[1..] + ys;
      ReverseAppend(xs[1..], ys);
    }
  }

  /** `invalid_names` lists the rejected candidates in reverse processing order. */
  lemma {:induction false} InvalidNamesReversed(cands: seq<string>, valid: string -> bool)
    ensures InvalidNames(cands, valid) == Reverse(Rejected(cands, valid))
    decreases |cands|
  {
    if cands != [] {
      var init := cands[..|cands| - 1];
      var t := cands[|cands| - 1];
      assert cands == init + [t];
      InvalidNamesReversed(init, valid);
      RejectedAppend(init, t, valid);
      var sel := if valid(t) then [] else [t];
      ReverseAppend(Rejected(init, valid), sel);
      assert Reverse(sel) == sel;
    }
  }

  /** `type_map` does not depend on the processing order: it maps exactly the candidates
      with entity info, each to its own origin. */
  lemma {:induction false} TypeMapExact(cands: seq<string>, info: string -> Option<string>)
    ensures TypeMap(cands, info) == map t | t in cands && info(t).Some? :: info(t).value
    decreases |cands|
  {
    if cands != [] {
      var init := cands[..|cands| - 1];
      var t := cands[|cands| - 1];
      assert cands == init + [t];
      TypeMapExact(init, info);
    }
  }

  /** Only names with a non-empty origin change the string: a name without entity info is
      skipped, and one with an empty origin is replaced by itself. */
  lemma {:induction false} RewrittenByQualifyingOnly(text: string, cands: seq<string>, info: string -> Option<string>)
    requires AllIdentifiers(cands)
    ensures AllIdentifiers(Qualifying(cands, info))
    ensures Rewritten(text, cands, info) == Rewritten(text, Qualifying(cands, info), info)
    decreases |cands|
  {
    if cands != [] {
      var init := cands[..|cands| - 1];
      var t := cands[|cands| - 1];
      assert t in cands;
      assert forall x :: x in init ==> x in cands;
      RewrittenByQualifyingOnly(text, init, info);
      var q := Qualifying(init, info);
      if info(t).Some? && info(t).value != "" {
        var q' := q + [t];
        assert Qualifying(cands, info) == q';
        assert q'[..|q'| - 1] == q;
      } else {
        assert Qualifying(cands, info) == q + [];
        assert q + [] == q;
        if info(t).Some? {
          assert Qualified(info(t).value, t) == t;
          SubstituteIdentity(Rewritten(text, init, info), t);
        }
      }
    }
  }

  /** A candidate with entity info has an entry in `type_map`, so the result reports its
      origin; no other name has one. */
  lemma OriginsReported(r: ValidationResult, cands: seq<string>, info: string -> Option<string>, x: string)
    requires r.typeMap == TypeMap(cands, info)
    ensures r.GetOrigin(x) == if x in cands && info(x).Some? then Some(info(x).value) else None
  {
    TypeMapExact(cands, info);
  }

  class TypeValidator {
    const annotation: string
    var validatedType: string

    /** `__init__` (validator.py:80-87): the annotation must be non-empty. The compiled
        pattern is the scanner of module Scanner. */
    constructor(annotation: string)
      requires annotation != ""
      ensures this.annotation == annotation && validatedType == annotation
    {
      this.annotation := annotation;
      validatedType := annotation;
    }

    /** `find_names` (validator.py:101-111): the tokens of the argument, or of the whole
        annotation when the argument is missing or empty. An identifier comes back alone. */
    function FindNames(arg: Option<string>): (r: seq<string>)
      ensures arg == None || arg == Some("") ==> r == FindAll(annotation)
      ensures arg.Some? && arg.value != "" ==> r == FindAll(arg.value)
      ensures arg.Some? && IsIdentifier(arg.value) ==> r == [arg.value]
    {
      var text := if arg.Some? && arg.value != "" then arg.value else annotation;
      assert arg.Some? && IsIdentifier(arg.value) ==> FindAll(arg.value) == [arg.value] by {
        if arg.Some? && IsIdentifier(arg.value) {
          IdentifierRescansToItself(arg.value);
        }
      }
      FindAll(text)
    }

    /** `seperate_names` (validator.py:113-130), with the list popped while it is being
        enumerated: the element after a popped one is not examined. Only an empty capture
        can be split (into the tokens of the whole annotation), so the result is the set of
        non-empty tokens of the annotation. */
    method SeparateNames() returns (r: seq<string>)
      ensures NoDup(r) && "" !in r
      ensures forall x :: x in r <==> x in FindAll(annotation) && x != ""
      ensures AllIdentifiers(r)
    {
      var names := FindNames(None);
      var separated: seq<string> := [];
      var i := 0;
      while i < |names|
        invariant i <= |names| + 1
        invariant forall x :: x != "" ==> (x in names <==> x in FindAll(annotation))
        invariant forall x :: x in separated ==> x in FindAll(annotation)
        decreases |names| + 1 - i
      {
        var name := names[i];
        if name != "" {
          TokensAreBareIdentifiers(annotation, name);
        }
        var subNames := FindNames(Some(name));
        if |subNames| > 1 {
          assert name == "";
          separated := separated + subNames;
          assert names == names[..i] + [name] + names[i + 1..];
          names := names[..i] + names[i + 1..];
        }
        i := i + 1;
      }
      separated := separated + names;
      r := Only(separated);
    }

    /** `validate_names` (validator.py:132-204). Each candidate is resolved in turn; the
        loop never stops early. `candidates` is the order `seperate_names` produced. */
    method ValidateNames(valid: string -> bool, info: string -> Option<string>, eval: string -> Evaluation)
      returns (r: ValidationResult, ghost candidates: seq<string>)
      modifies this
      ensures NoDup(candidates) && AllIdentifiers(candidates)
      ensures forall x :: x in candidates <==> x in FindAll(annotation) && x != ""
      ensures validatedType == r.validatedType == Rewritten(old(validatedType), candidates, info)
      ensures r.invalidNames == InvalidNames(candidates, valid)
      ensures r.typeMap == TypeMap(candidates, info)
      ensures r == Finish(validatedType, r.typeMap, r.invalidNames, eval)
      ensures NoDup(r.invalidNames)
      ensures forall x :: x in r.invalidNames <==> x in candidates && !valid(x)
      ensures forall x :: r.GetOrigin(x) == if x in candidates && info(x).Some? then Some(info(x).value) else None
      ensures r.IsValid() <==>
                && (forall x :: x in candidates ==> valid(x))
                && eval(validatedType).Returned? && eval(validatedType).value.Some?
    {
      var allTypes := SeparateNames();
      candidates := allTypes;
      var typeMap: map<string, string> := map[];
      var invalidNames: seq<string> := [];
      var k := 0;
      while k < |allTypes|
        invariant 0 <= k <= |allTypes|
        invariant invalidNames == InvalidNames(allTypes[..k], valid)
        invariant typeMap == TypeMap(allTypes[..k], info)
        invariant validatedType == Rewritten(old(validatedType), allTypes[..k], info)
      {
        var t := allTypes[k];
        assert allTypes[..k + 1][..k] == allTypes[..k];
        // The `continue` guard of validator.py:154 is left out: it never holds.
        GuardNeverFires(t);
        if !valid(t) {
          invalidNames := [t] + invalidNames;
        }
        var entity := info(t);
        if entity.Some? {
          var origin := entity.value;
          var entityRepr: string;
          if origin != "" {
            entityRepr := origin + "." + t;
            typeMap := typeMap[t := origin];
          } else {
            typeMap := typeMap[t := ""];
            entityRepr := t;
          }
          validatedType := Substitute(validatedType, t, entityRepr);
        }
        k := k + 1;
      }
      assert allTypes[..k] == allTypes;
      forall x {
        InvalidNamesMembers(allTypes, valid, x);
      }
      InvalidNamesNoDup(allTypes, valid);
      assert invalidNames != [] ==> invalidNames[0] in invalidNames;
      r := Finish(validatedType, typeMap, invalidNames, eval);
      forall x {
        OriginsReported(r, allTypes, info, x);
      }
    }
  }
}

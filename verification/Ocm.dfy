/** The two loops of the credential manager functions. */
module Ocm {
  import opened Wrappers
  import opened Strings

  /** Position i is the first whose scope has the type t. */
  ghost predicate FirstWith(scopes: seq<string>, scopeToType: map<string, string>, t: string, i: nat) {
    && i < |scopes| && scopes[i] in scopeToType && scopeToType[scopes[i]] == t
    && forall j :: 0 <= j < i && scopes[j] in scopeToType ==> scopeToType[scopes[j]] != t
  }

  /** The credential types to ask for: the types of the scopes, each once, in order of first occurrence.
      Fails on a scope without a type, and when every type is empty. */
  method CredentialTypes(scopes: seq<string>, scopeToType: map<string, string>)
    returns (res: Result<seq<string>>, ghost firsts: seq<nat>)
    ensures res.Ok? <==>
            && (forall s :: s in scopes ==> s in scopeToType)
            && (exists s :: s in scopes && s in scopeToType && scopeToType[s] != "")
    ensures res.Ok? ==> |firsts| == |res.value|
    ensures res.Ok? ==> forall k :: 0 <= k < |firsts| ==> FirstWith(scopes, scopeToType, res.value[k], firsts[k])
    ensures res.Ok? ==> forall k, l :: 0 <= k < l < |firsts| ==> firsts[k] < firsts[l] && res.value[k] != res.value[l]
    ensures res.Ok? ==> forall t :: t in res.value <==> t != "" && exists i :: FirstWith(scopes, scopeToType, t, i)
  {
    var credTypes: seq<string>, distinctTypes: set<string> := [], {};
    firsts := [];
    for i := 0 to |scopes|
      invariant forall j :: 0 <= j < i ==> scopes[j] in scopeToType
      invariant forall t :: t in distinctTypes <==> exists j :: 0 <= j < i && scopeToType[scopes[j]] == t
      invariant forall t :: t in credTypes <==> t in distinctTypes && t != ""
      invariant |firsts| == |credTypes|
      invariant forall k :: 0 <= k < |firsts| ==> firsts[k] < i && FirstWith(scopes, scopeToType, credTypes[k], firsts[k])
      invariant forall k, l :: 0 <= k < l < |firsts| ==> firsts[k] < firsts[l] && credTypes[k] != credTypes[l]
    {
      if scopes[i] !in scopeToType {
        return Err(Failure), firsts;
      }
      var credType := scopeToType[scopes[i]];
      if credType != "" && credType !in distinctTypes {
        assert FirstWith(scopes, scopeToType, credType, i);
        credTypes, firsts := credTypes + [credType], firsts + [i];
      }
      distinctTypes := distinctTypes + {credType};
    }
    if |credTypes| == 0 {
      forall s | s in scopes
        ensures scopeToType[s] == ""
      {
        assert scopeToType[s] in distinctTypes;
      }
      return Err(Failure), firsts;
    }
    forall t
      ensures t in credTypes <==> t != "" && exists i :: FirstWith(scopes, scopeToType, t, i)
    {
      if t in credTypes {
        var k :| 0 <= k < |credTypes| && credTypes[k] == t;
        assert FirstWith(scopes, scopeToType, t, firsts[k]);
      }
    }
    assert credTypes[0] in credTypes;
    assert scopes[firsts[0]] in scopes;
    return Ok(credTypes), firsts;
  }

  /** The claims of all presentations; of equal names the later presentation's value stays. */
  function Merged<V>(presentations: seq<map<string, V>>): map<string, V>
    decreases |presentations|
  {
    if presentations == [] then map[] else Merged(Front(presentations)) + Last(presentations)
  }

  /** A claim has the value of the last presentation that makes it, and there are no other claims. */
  lemma {:induction false} ClaimOfLastPresentation<V>(presentations: seq<map<string, V>>, name: string)
    ensures name in Merged(presentations) <==> exists i :: 0 <= i < |presentations| && name in presentations[i]
    ensures forall i :: 0 <= i < |presentations| && name in presentations[i]
              && (forall j :: i < j < |presentations| ==> name !in presentations[j])
              ==> Merged(presentations)[name] == presentations[i][name]
    decreases |presentations|
  {
    if presentations != [] {
      ClaimOfLastPresentation(Front(presentations), name);
      assert presentations == Front(presentations) + [Last(presentations)];
    }
  }

  /** Entry by entry, each map in any order. */
  method MergeClaims<V>(presentations: seq<map<string, V>>) returns (claims: map<string, V>)
    ensures claims == Merged(presentations)
  {
    claims := map[];
    for i := 0 to |presentations|
      invariant claims == Merged(presentations[..i])
    {
      var pres := presentations[i];
      assert Front(presentations[..i + 1]) == presentations[..i] && Last(presentations[..i + 1]) == pres;
      var todo := pres.Keys;
      while todo != {}
        invariant todo <= pres.Keys
        invariant claims.Keys == Merged(presentations[..i]).Keys + (pres.Keys - todo)
        invariant forall name :: name in claims ==>
                    claims[name] == if name in pres.Keys - todo then pres[name] else Merged(presentations[..i])[name]
        decreases todo
      {
        var name :| name in todo;
        claims, todo := claims[name := pres[name]], todo - {name};
      }
      assert claims == Merged(presentations[..i + 1]);
    }
    assert presentations[..|presentations|] == presentations;
  }
}

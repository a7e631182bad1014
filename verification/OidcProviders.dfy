/** OIDC providers with unique issuer and slug. */
module OidcProviders {
  import opened Prelude
  import opened UniqueIndex

  datatype Provider = Provider(id: string, issuer: string, slug: string, fields: map<string, string>)

  datatype Error = MissingIssuerOrName | IssuerTaken | SlugTaken | FieldNotUpdatable

  const OIDC_UPDATABLE_FIELDS := {
    "name", "display_name", "slug", "issuer", "client_id", "client_secret", "authorization_endpoint",
    "token_endpoint", "userinfo_endpoint", "jwks_uri", "discovery_url", "scopes", "enabled", "attribute_mapping"
  }

  predicate Updatable(fields: map<string, string>) { fields.Keys <= OIDC_UPDATABLE_FIELDS }

  const ProviderId: Provider -> string := (p: Provider) => p.id
  const IssuerKey: Provider -> Option<string> := (p: Provider) => Some(p.issuer)
  const SlugKey: Provider -> Option<string> := (p: Provider) => Some(p.slug)

  /** `id` is the provider that `identifier` names: by issuer, else by slug in any case, else none. */
  ghost predicate IsTarget(providers: map<string, Provider>, identifier: string, id: Option<string>) {
    match id
    case None => forall i :: i in providers ==> providers[i].issuer != identifier && providers[i].slug != Lower(identifier)
    case Some(id) =>
      && id in providers
      && (providers[id].issuer == identifier
          || (providers[id].slug == Lower(identifier)
              && forall i :: i in providers ==> providers[i].issuer != identifier))
  }

  /** The case of a slug does not matter. */
  lemma {:induction false} SlugInAnyCase(providers: map<string, Provider>, a: string, b: string, id: Option<string>)
    requires EqualFold(a, b) && forall i :: i in providers ==> providers[i].issuer != a && providers[i].issuer != b
    ensures IsTarget(providers, a, id) <==> IsTarget(providers, b, id)
  {
    LowerEqIff(a, b);
  }

  function WithIssuer(p: Provider, issuer: Option<string>): Provider {
    if issuer.Some? then p.(issuer := issuer.value) else p
  }

  function WithSlug(p: Provider, slug: Option<string>): Provider {
    if slug.Some? then p.(slug := Lower(slug.value)) else p
  }

  /** The two moves: what is raised, and what is left in place. */
  ghost function Moved(providers: map<string, Provider>, id: string, issuer: Option<string>, slug: Option<string>)
    : (r: (Option<Error>, map<string, Provider>))
    requires id in providers
    ensures id in r.1
  {
    var half := providers[id := WithIssuer(providers[id], issuer)];
    if !Free(providers, IssuerKey, issuer, id) then (Some(IssuerTaken), providers)
    else if slug.Some? && !Free(providers, SlugKey, Some(Lower(slug.value)), id) then (Some(SlugTaken), half)
    else (None, half[id := WithSlug(half[id], slug)])
  }

  /** A taken issuer stops the move at once; a taken slug is found out only when the new issuer is in place. */
  lemma {:induction false} MovedMeans(providers: map<string, Provider>, id: string, issuer: Option<string>, slug: Option<string>)
    returns (e: Option<Error>, after: map<string, Provider>)
    requires id in providers
    ensures (e, after) == Moved(providers, id, issuer, slug)
    ensures id in after && e in [None, Some(IssuerTaken), Some(SlugTaken)]
    ensures e == Some(IssuerTaken) <==>
              issuer.Some? && exists i :: i in providers && i != id && providers[i].issuer == issuer.value
    ensures e == Some(SlugTaken) <==>
              && e != Some(IssuerTaken)
              && slug.Some? && exists i :: i in providers && i != id && providers[i].slug == Lower(slug.value)
    ensures forall i :: i in after <==> i in providers
    ensures forall i :: i in providers && i != id ==> after[i] == providers[i]
    ensures (after[id].id, after[id].fields) == (providers[id].id, providers[id].fields)
    ensures after[id].issuer == if issuer.Some? && e != Some(IssuerTaken) then issuer.value else providers[id].issuer
    ensures after[id].slug == if slug.Some? && e == None then Lower(slug.value) else providers[id].slug
  {
    e, after := Moved(providers, id, issuer, slug).0, Moved(providers, id, issuer, slug).1;
  }

  ghost predicate Indexed(providers: map<string, Provider>, byIssuer: map<string, string>, bySlug: map<string, string>) {
    Filed(providers, ProviderId) && Exact(byIssuer, providers, IssuerKey) && Exact(bySlug, providers, SlugKey)
  }

  /** When storing a new record, whose issuer and slug are free, leaves everything indexed. */
  lemma {:induction false} SavedIndexedIff(providers: map<string, Provider>, byIssuer: map<string, string>,
                                           bySlug: map<string, string>, p: Provider)
    requires Indexed(providers, byIssuer, bySlug)
    requires !Taken(providers, IssuerKey, IssuerKey(p), None) && !Taken(providers, SlugKey, SlugKey(p), None)
    ensures Indexed(providers[p.id := p], byIssuer[p.issuer := p.id], bySlug[p.slug := p.id])
       <==> p.id != "" && p.id !in providers
  {
    FiledIff(providers, ProviderId, p);
    OverwriteExactIff(byIssuer, providers, IssuerKey, p.id, p);
    OverwriteExactIff(bySlug, providers, SlugKey, p.id, p);
    assert Reindex(byIssuer, IssuerKey(p), p.id) == byIssuer[p.issuer := p.id];
    assert Reindex(bySlug, SlugKey(p), p.id) == bySlug[p.slug := p.id];
  }

  class InMemoryProviders {
    var providers: map<string, Provider>
    var byIssuer: map<string, string>
    var bySlug: map<string, string>

    ghost predicate Valid()
      reads this
    {
      Indexed(providers, byIssuer, bySlug)
    }

    constructor ()
      ensures Valid() && providers == map[]
    {
      providers, byIssuer, bySlug := map[], map[], map[];
    }

    /** `id` is the caller's id or a fresh one; an absent slug comes from the name. Saving over an id in use
        leaves the old provider's index entries behind. */
    method SaveProvider(id: string, issuer: string, name: string, slug: Option<string>, fields: map<string, string>)
      returns (r: Result<Provider, Error>)
      requires Valid()
      modifies this
      ensures var p := Provider(id, issuer, Lower(if slug.Some? then slug.value else Slugify(name)), fields);
              if issuer == "" || name == "" then r == Err(MissingIssuerOrName) && providers == old(providers) && Valid()
              else if Taken(old(providers), IssuerKey, IssuerKey(p), None) then
                r == Err(IssuerTaken) && providers == old(providers) && Valid()
              else if Taken(old(providers), SlugKey, SlugKey(p), None) then
                r == Err(SlugTaken) && providers == old(providers) && Valid()
              else
                && r == Ok(p) && providers == old(providers)[id := p]
                && (Valid() <==> id != "" && id !in old(providers))
    {
      if issuer == "" || name == "" {
        return Err(MissingIssuerOrName);
      }
      var p := Provider(id, issuer, Lower(if slug.Some? then slug.value else Slugify(name)), fields);
      TakenIff(byIssuer, providers, IssuerKey, IssuerKey(p), None);
      TakenIff(bySlug, providers, SlugKey, SlugKey(p), None);
      if p.issuer in byIssuer {
        return Err(IssuerTaken);
      }
      if p.slug in bySlug {
        return Err(SlugTaken);
      }
      SavedIndexedIff(providers, byIssuer, bySlug, p);
      providers := providers[id := p];
      byIssuer := byIssuer[p.issuer := id];
      bySlug := bySlug[p.slug := id];
      return Ok(p);
    }

    /** Looked up by issuer first, then by slug in any case. */
    method FindId(identifier: string) returns (id: Option<string>)
      requires Valid()
      ensures IsTarget(providers, identifier, id)
    {
      if identifier in byIssuer {
        return Some(byIssuer[identifier]);
      }
      if Lower(identifier) in bySlug {
        return Some(bySlug[Lower(identifier)]);
      }
      assert forall i :: i in providers ==> IssuerKey(providers[i]).value in byIssuer;
      assert forall i :: i in providers ==> SlugKey(providers[i]).value in bySlug;
      return None;
    }

    method MoveIssuer(id: string, issuer: string) returns (taken: bool)
      requires Valid() && id in providers && issuer != providers[id].issuer
      modifies this
      ensures Valid()
      ensures taken <==> !Free(old(providers), IssuerKey, Some(issuer), id)
      ensures providers == if taken then old(providers) else old(providers)[id := old(providers)[id].(issuer := issuer)]
    {
      FreeIff(byIssuer, providers, IssuerKey, Some(issuer), id);
      if issuer in byIssuer {
        assert byIssuer[issuer] != id;
        return true;
      }
      var p := providers[id].(issuer := issuer);
      ExactReplace(byIssuer, providers, IssuerKey, id, p);
      ExactSameKey(bySlug, providers, SlugKey, id, p);
      byIssuer := byIssuer - {providers[id].issuer};
      providers := providers[id := p];
      byIssuer := byIssuer[issuer := id];
      return false;
    }

    method MoveSlug(id: string, slug: string) returns (taken: bool)
      requires Valid() && id in providers && slug != providers[id].slug
      modifies this
      ensures Valid()
      ensures taken <==> !Free(old(providers), SlugKey, Some(slug), id)
      ensures providers == if taken then old(providers) else old(providers)[id := old(providers)[id].(slug := slug)]
    {
      FreeIff(bySlug, providers, SlugKey, Some(slug), id);
      if slug in bySlug {
        assert bySlug[slug] != id;
        return true;
      }
      var p := providers[id].(slug := slug);
      ExactReplace(bySlug, providers, SlugKey, id, p);
      ExactSameKey(byIssuer, providers, IssuerKey, id, p);
      bySlug := bySlug - {providers[id].slug};
      providers := providers[id := p];
      bySlug := bySlug[slug := id];
      return false;
    }

    /** The two unique fields move one after the other: a slug that is taken is found out after the
        issuer has been moved, and the issuer stays moved. */
    method MoveBoth(id: string, issuer: Option<string>, slug: Option<string>) returns (e: Option<Error>)
      requires Valid() && id in providers
      modifies this
      ensures Valid()
      ensures (e, providers) == Moved(old(providers), id, issuer, slug)
    {
      if issuer.Some? && issuer.value != providers[id].issuer {
        var taken := MoveIssuer(id, issuer.value);
        if taken {
          return Some(IssuerTaken);
        }
      } else {
        FreeIff(byIssuer, providers, IssuerKey, issuer, id);
        assert providers == providers[id := WithIssuer(providers[id], issuer)];
      }
      ghost var moved := providers;
      assert moved == old(providers)[id := WithIssuer(old(providers)[id], issuer)];
      if slug.Some? {
        FreeOwnChange(old(providers), SlugKey, Some(Lower(slug.value)), id, moved[id]);
        var taken := SetSlug(id, Lower(slug.value));
        if taken {
          return Some(SlugTaken);
        }
      }
      assert providers == moved[id := WithSlug(moved[id], slug)];
      return None;
    }

    /** The slug, if it is a new one. */
    method SetSlug(id: string, slug: string) returns (taken: bool)
      requires Valid() && id in providers
      modifies this
      ensures Valid()
      ensures taken <==> !Free(old(providers), SlugKey, Some(slug), id)
      ensures providers == if taken then old(providers) else old(providers)[id := old(providers)[id].(slug := slug)]
    {
      if slug != providers[id].slug {
        taken := MoveSlug(id, slug);
      } else {
        FreeIff(bySlug, providers, SlugKey, Some(slug), id);
        taken := false;
      }
    }

    method SetFields(id: string, fields: map<string, string>)
      requires Valid() && id in providers
      modifies this`providers
      ensures Valid()
      ensures providers == old(providers)[id := old(providers)[id].(fields := old(providers)[id].fields + fields)]
    {
      var p := providers[id].(fields := providers[id].fields + fields);
      ExactSameKey(byIssuer, providers, IssuerKey, id, p);
      ExactSameKey(bySlug, providers, SlugKey, id, p);
      providers := providers[id := p];
    }

    /** Whatever it returns or raises, both indexes stay exact. */
    method UpdateProvider(identifier: string, issuer: Option<string>, slug: Option<string>, fields: map<string, string>)
      returns (r: Result<Option<Provider>, Error>, ghost target: Option<string>)
      requires Valid() && "issuer" !in fields && "slug" !in fields
      modifies this
      ensures Valid()
      ensures IsTarget(old(providers), identifier, target)
      ensures target == None ==> r == Ok(None) && providers == old(providers)
      ensures target.Some? && !Updatable(fields) ==>
                r == Err(FieldNotUpdatable) && providers == old(providers)
      ensures target.Some? && Updatable(fields) ==>
                var (e, moved) := Moved(old(providers), target.value, issuer, slug);
                if e.Some? then r == Err(e.value) && providers == moved
                else
                  var done := moved[target.value].(fields := moved[target.value].fields + fields);
                  r == Ok(Some(done)) && providers == moved[target.value := done]
    {
      var found := FindId(identifier);
      target := found;
      if found.None? {
        return Ok(None), target;
      }
      if !Updatable(fields) {
        return Err(FieldNotUpdatable), target;
      }
      var id := found.value;
      var e := MoveBoth(id, issuer, slug);
      if e.Some? {
        return Err(e.value), target;
      }
      SetFields(id, fields);
      return Ok(Some(providers[id])), target;
    }
  }
}

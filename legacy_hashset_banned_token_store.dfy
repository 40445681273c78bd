/** The earlier banned-token store
    (auth-service/src/services/hashset_banned_token_store.rs), written
    against the interface of auth-service/src/domain/data_stores/banned_token_store.rs:
    `add_token` returns nothing and `contains_token` a plain boolean. */
module LegacyBannedTokenService {

  class HashsetBannedTokenStore {
    var tokens: set<string>

    constructor ()
      ensures tokens == {}
    {
      tokens := {};
    }

    /** `add_token`: afterwards `token` is banned; only its membership can
        change, and adding it again changes nothing. */
    method AddToken(token: string)
      modifies this
      ensures tokens == old(tokens) + {token}
      ensures token in old(tokens) ==> tokens == old(tokens)
    {
      tokens := tokens + {token};
    }

    /** `contains_token`: true exactly for tokens added before; reads only. */
    method ContainsToken(token: string) returns (banned: bool)
      ensures banned <==> token in tokens
    {
      if token in tokens {
        banned := true;
      } else {
        banned := false;
      }
    }
  }

  /** After `add_token(t)`, `contains_token(t)` is true and every token never
      added is still reported as not banned. */
  method AddThenContains(t: string, other: string) returns (added: bool, notAdded: bool)
    requires other != t
    ensures added && !notAdded
  {
    var store := new HashsetBannedTokenStore();
    store.AddToken(t);
    added := store.ContainsToken(t);
    notAdded := store.ContainsToken(other);
  }
}

/** The in-memory banned-token store
    (auth-service/src/services/data_stores/hashset_banned_token_store.rs):
    the set of tokens that must no longer be accepted. Both operations
    return a `Result` but never fail. */
module BannedTokenService {
  import opened Wrappers

  /** The error type of the store interface; the in-memory store never
      produces it. */
  datatype BannedTokenStoreError = UnexpectedError

  class HashsetBannedTokenStore {
    var tokens: set<string>

    /** `HashsetBannedTokenStore::default`: nothing banned. */
    constructor ()
      ensures tokens == {}
    {
      tokens := {};
    }

    /** `add_token`: never fails; afterwards `token` is banned and no other
        token's membership changes (adding it again changes nothing). */
    method AddToken(token: string) returns (r: Result<Unit, BannedTokenStoreError>)
      modifies this
      ensures r == Ok(Unit)
      ensures tokens == old(tokens) + {token}
      ensures token in old(tokens) ==> tokens == old(tokens)
    {
      tokens := tokens + {token};
      r := Ok(Unit);
    }

    /** `contains_token`: `Ok(true)` exactly for a banned token, `Ok(false)`
        otherwise, never an error; reads only. */
    method ContainsToken(token: string) returns (r: Result<bool, BannedTokenStoreError>)
      ensures r.Ok?
      ensures r.value <==> token in tokens
    {
      if token in tokens {
        r := Ok(true);
      } else {
        r := Ok(false);
      }
    }
  }
}

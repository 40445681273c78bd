/** The part of an HTTP cookie and of a request's cookie jar that the
    handlers use: a cookie's name, value and attributes, and a jar that
    holds at most one cookie per name. */
module Cookies {
  import opened Wrappers

  datatype SameSite = Strict | Lax | NoSameSite

  /** Attributes that were never set are `None`, as the cookie builder
      reports them. */
  datatype Cookie = Cookie(name: string, value: string, path: Option<string>,
                           httpOnly: Option<bool>, sameSite: Option<SameSite>)

  datatype CookieJar = CookieJar(cookies: map<string, Cookie>)
  {
    /** `jar.get(name)`. */
    function Get(name: string): (r: Option<Cookie>)
      ensures r.Some? <==> name in cookies
      ensures r.Some? ==> r.value == cookies[name]
    {
      if name in cookies then Some(cookies[name]) else None
    }

    /** `jar.add(cookie)`: replaces any cookie of the same name and keeps
        the others. */
    function Add(c: Cookie): (r: CookieJar)
      ensures r.Get(c.name) == Some(c)
      ensures forall n :: n != c.name ==> r.Get(n) == Get(n)
    {
      CookieJar(cookies[c.name := c])
    }

    /** `jar.remove(name)`: afterwards the jar has no cookie of that name
        and the others are kept. */
    function Remove(name: string): (r: CookieJar)
      ensures r.Get(name) == None
      ensures forall n :: n != name ==> r.Get(n) == Get(n)
    {
      CookieJar(cookies - {name})
    }
  }

  const EmptyJar := CookieJar(map[])
}

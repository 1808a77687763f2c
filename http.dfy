/** The per-request context that the webhook middleware chain reads and
    writes: Express's `req` restricted to the members the core uses. */
module Http {
  import opened Options
  import opened JsStrings

  /** An in-flight request. `J` is the type of parsed JSON bodies. */
  class Request<J> {
    /** `req.path`. */
    const path: string
    /** Header values keyed by lower-cased name, as Node stores them. */
    const headers: map<string, string>
    /** `req.rawBody`: set only by the raw-body capture middleware. */
    var rawBody: Option<string>
    /** `req.body`. */
    var body: Option<J>
    /** `req.verified`. */
    var verified: bool

    constructor (path: string, headers: map<string, string>)
      ensures this.path == path && this.headers == headers
      ensures rawBody == None && body == None && !verified
    {
      this.path := path;
      this.headers := headers;
      rawBody := None;
      body := None;
      verified := false;
    }

    /** `req.get(name)`: header lookup, case-insensitive in the name. */
    function Header(name: string): (r: Option<string>)
      ensures r.Some? <==> ToLower(name) in headers
      ensures r.Some? ==> r.value == headers[ToLower(name)]
    {
      var key := ToLower(name);
      if key in headers then Some(headers[key]) else None
    }
  }
}

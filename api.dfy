/**
 * `ApiManager`, the process-wide HTTP client of the box's web server: created once
 * with the box's IP, then handed out unchanged.
 */
module Api {
  import opened Outcomes

  /** `http://<ip>:80`, the base URL every request is resolved against. */
  function BaseUrl(ip: string): (url: string)
    ensures |url| == |ip| + 10
    ensures url[..7] == "http://" && url[7..|url| - 3] == ip && url[|url| - 3..] == ":80"
  {
    "http://" + ip + ":80"
  }

  /** Different IPs give different base URLs. */
  lemma BaseUrlInjective(a: string, b: string)
    requires BaseUrl(a) == BaseUrl(b)
    ensures a == b
  {
    var u := BaseUrl(a);
    assert a == u[7..|u| - 3];
  }

  class ApiManager {
    const ip: string
    const baseUrl: string

    /** The client was created for `ip`: its base URL is that IP's. */
    predicate Valid() {
      baseUrl == BaseUrl(ip)
    }

    constructor(ip: string)
      ensures this.ip == ip && Valid()
    {
      this.ip := ip;
      baseUrl := BaseUrl(ip);
    }

    /** The `ipAdress` getter. */
    function IpAddress(): (r: string)
      requires Valid()
      ensures BaseUrl(r) == baseUrl
    {
      ip
    }
  }

  datatype ApiError =
    | MissingIp   // first call without an IP
    | IpChanged   // later call with another IP

  /** An IP argument counts only when present and non-empty (the empty string is falsy). */
  predicate Given(ip: Option<string>) {
    ip.Some? && ip.value != ""
  }

  /** The static side of the class: `ApiManager.instance`. */
  class Registry {
    var instance: ApiManager?

    predicate Valid()
      reads this
    {
      instance != null ==> instance.Valid()
    }

    constructor()
      ensures instance == null && Valid()
    {
      instance := null;
    }

    /** `ApiManager.getInstance(ip?)`. */
    method GetInstance(ip: Option<string>) returns (r: Result<ApiManager, ApiError>)
      requires Valid()
      modifies this
      ensures Valid() && (r.Ok? ==> r.value.Valid())
      ensures old(instance) != null ==> instance == old(instance)
      ensures old(instance) == null && !Given(ip) ==> r == Err(MissingIp) && instance == null
      ensures old(instance) == null && Given(ip) ==>
                r.Ok? && fresh(r.value) && r.value.ip == ip.value && r.value.Valid() && instance == r.value
      ensures old(instance) != null && Given(ip) && ip.value != old(instance).ip ==> r == Err(IpChanged)
      ensures old(instance) != null && !(Given(ip) && ip.value != old(instance).ip) ==> r == Ok(old(instance))
    {
      if instance == null {
        if !Given(ip) {
          return Err(MissingIp);
        }
        instance := new ApiManager(ip.value);
      } else if Given(ip) && instance.ip != ip.value {
        return Err(IpChanged);
      }
      return Ok(instance);
    }
  }
}

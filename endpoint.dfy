/** Address building for the apartment API (endpoint.js). */
module Endpoints {

  /** The fixed base address of the API (endpoint.js, line 1). */
  const BaseUrl: string := "https://api.africartz.com/api"

  /** The address of an apartment record, up to its identifier. */
  const ApartmentDetailsPrefix: string := "https://api.africartz.com/api/apartment/"

  /** `endpoint(path)`: the base address, a slash, then the path verbatim. */
  function Endpoint(path: string): (url: string)
    ensures |url| == |BaseUrl| + 1 + |path|
    ensures url[..|BaseUrl|] == BaseUrl
    ensures url[|BaseUrl|] == '/'
    ensures url[|BaseUrl| + 1..] == path
  {
    BaseUrl + "/" + path
  }

  /** `getApartmentDetails(apartmentId)`: the endpoint of `apartment/<id>`,
      which is the literal apartment address followed by the identifier. */
  function GetApartmentDetails(apartmentId: string): (url: string)
    ensures url == ApartmentDetailsPrefix + apartmentId
    ensures url[|ApartmentDetailsPrefix|..] == apartmentId
  {
    var url := Endpoint("apartment/" + apartmentId);
    assert url == BaseUrl + "/" + ("apartment/" + apartmentId);
    assert BaseUrl + "/" + ("apartment/" + apartmentId) == ApartmentDetailsPrefix + apartmentId;
    url
  }

  /** Distinct identifiers give distinct addresses. */
  lemma GetApartmentDetailsInjective(a: string, b: string)
    requires GetApartmentDetails(a) == GetApartmentDetails(b)
    ensures a == b
  {
  }

}

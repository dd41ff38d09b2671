/**
 * Where the last HTTP response came from. An OkHttp interceptor classifies every
 * response and overwrites one process-wide cell that the view models read.
 */
module ResponseOrigin {
  import opened Common

  /** The parts of an OkHttp `Response` the interceptor inspects. */
  datatype Response = Response(hasNetworkResponse: bool, hasCacheResponse: bool, code: int)

  /** The three-way decision; a network response wins over a cached one. */
  function Classify(response: Response): (origin: string)
    ensures origin == "INTERNET" <==> response.hasNetworkResponse
    ensures origin == "CACHE" <==> !response.hasNetworkResponse && response.hasCacheResponse
    ensures origin == "UNKNOWN" <==> !response.hasNetworkResponse && !response.hasCacheResponse
  {
    if response.hasNetworkResponse then "INTERNET"
    else if response.hasCacheResponse then "CACHE"
    else "UNKNOWN"
  }

  /** `ResponseOriginTracker`: a single mutable string cell, null until the first response. */
  class ResponseOriginTracker {
    var source: Option<string>

    constructor ()
      ensures source == None
    {
      source := None;
    }
  }

  class ResponseOriginInterceptor {
    const tracker: ResponseOriginTracker

    constructor (tracker: ResponseOriginTracker)
      ensures this.tracker == tracker
    {
      this.tracker := tracker;
    }

    /**
     * `intercept`: `proceeded` is what `chain.proceed` returned. It is passed on
     * unchanged and the tracker is overwritten whatever it held, so the last call wins.
     */
    method Intercept(proceeded: Response) returns (r: Response)
      modifies tracker
      ensures r == proceeded
      ensures tracker.source == Some(Classify(proceeded))
    {
      tracker.source := Some(Classify(proceeded));
      r := proceeded;
    }
  }
}

/**
 * The request middleware: tag pass-through responses with the device type, let API-auth requests
 * through, send logged-in users away from the auth pages, and send anonymous users on protected
 * pages to the log-in page with a `callbackUrl` back to where they were.
 */
module Middleware {
  import opened Results

  /** `PATHS.logIn`. */
  const LOG_IN := "/auth/login"
  const DEVICE_TYPE_HEADER := "x-device-type"
  const MOBILE := "mobile"
  const DESKTOP := "desktop"

  /**
   * The parts of an incoming request the middleware reads: `nextUrl.pathname`, `nextUrl.search`
   * (empty or starting with `?`), whether the session is present, and `userAgent(request).device.type`.
   */
  datatype Request = Request(pathname: string, search: string, isLoggedIn: bool, deviceType: Option<string>)

  /** The route constants: `API_AUTH_PREFIX`, `AUTH_ROUTES` and `DEFAULT_LOGIN_REDIRECT`. */
  datatype RouteConfig = RouteConfig(apiAuthPrefix: string, authRoutes: seq<string>, defaultLoginRedirect: string)

  /**
   * `NextResponse.next()` or `NextResponse.redirect(new URL(location, nextUrl))`. `headers` holds only
   * the headers the middleware sets, not the framework's own or the redirect's `Location` (which is
   * `location`); `location` is kept as the reference resolved against the request URL.
   */
  datatype Response = Next(headers: map<string, string>) | Redirect(location: string, headers: map<string, string>)

  /** `callbackUrl = pathname`, then `callbackUrl += search` when the search string is not empty. */
  method BuildCallbackUrl(pathname: string, search: string) returns (callbackUrl: string)
    ensures callbackUrl == pathname + search
  {
    callbackUrl := pathname;
    if search != "" {
      callbackUrl := callbackUrl + search;
    }
  }

  /**
   * The `auth((request) => …)` callback. `isPublicRoute` and `encodeURIComponent` are the helpers it
   * calls; their definitions are not part of this model.
   */
  method HandleRequest(
    request: Request, config: RouteConfig,
    isPublicRoute: string -> bool, encodeURIComponent: string -> string)
    returns (response: Response)
    // The API-auth prefix wins over everything else.
    ensures config.apiAuthPrefix <= request.pathname ==> response.Next?
    // On an auth route: logged-in users go to the default redirect, others pass.
    ensures !(config.apiAuthPrefix <= request.pathname) && request.pathname in config.authRoutes ==>
      (response.Redirect? <==> request.isLoggedIn)
      && (response.Redirect? ==> response.location == config.defaultLoginRedirect)
    // Elsewhere: anonymous users on non-public routes go to the log-in page with the callback.
    ensures !(config.apiAuthPrefix <= request.pathname) && request.pathname !in config.authRoutes ==>
      (response.Redirect? <==> !request.isLoggedIn && !isPublicRoute(request.pathname))
      && (response.Redirect? ==>
            response.location == LOG_IN + "?callbackUrl=" + encodeURIComponent(request.pathname + request.search))
    // The middleware sets the device type on pass-through responses and nothing on redirects.
    ensures response.Next? ==>
      response.headers == map[DEVICE_TYPE_HEADER := if request.deviceType == Some(MOBILE) then MOBILE else DESKTOP]
    ensures response.Redirect? ==> response.headers == map[]
  {
    var isMobile := request.deviceType == Some(MOBILE);
    var pathname := request.pathname;
    var isLoggedIn := request.isLoggedIn;
    var isApiAuthRoute := config.apiAuthPrefix <= pathname;
    var isAuthRoute := pathname in config.authRoutes;

    response := Next(map[]);
    response := Next(response.headers[DEVICE_TYPE_HEADER := if isMobile then MOBILE else DESKTOP]);

    if isApiAuthRoute {
      return response;
    }

    if isAuthRoute {
      if isLoggedIn {
        response := Next(response.headers[DEVICE_TYPE_HEADER := if isMobile then MOBILE else DESKTOP]);
        response := Redirect(config.defaultLoginRedirect, map[]);
        return response;
      }
      return response;
    }

    if !isLoggedIn && !isPublicRoute(pathname) {
      var callbackUrl := BuildCallbackUrl(pathname, request.search);
      var encodedCallbackUrl := encodeURIComponent(callbackUrl);
      response := Next(response.headers[DEVICE_TYPE_HEADER := if isMobile then MOBILE else DESKTOP]);
      response := Redirect(LOG_IN + "?callbackUrl=" + encodedCallbackUrl, map[]);
      return response;
    }

    return response;
  }
}

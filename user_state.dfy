/**
 * The slice of the chat client's global application state that the user
 * selectors read: the known users, their presence, the navigation stack and
 * the locally logged-in accounts.
 */
module UserState {
  import opened Wrappers

  /** A user of the chat server. `email` is the identity key; `id` is the server's numeric id. */
  datatype User = User(
    email: string,
    id: int,
    fullName: string,
    avatarUrl: string,
    isActive: bool,
    isAdmin: bool,
    isBot: bool)

  /** The aggregated presence status of a user. */
  datatype Status = Active | Idle | Offline

  /** The parameters a route may carry; the account-details screen carries the email it shows. */
  datatype Params = Params(email: string)

  /** One entry of the navigation stack. A route need not carry parameters. */
  datatype Route = Route(routeName: string, params: Option<Params>)

  /** The navigation stack; the route at `index` is the current one. */
  datatype Nav = Nav(index: int, routes: seq<Route>)

  /** A locally logged-in identity; the first account is "me". */
  datatype Account = Account(email: string)

  /**
   * The application state snapshot. `presence` maps a user's email to the
   * aggregated status of that user's presence entry; a user may have none.
   */
  datatype State = State(
    users: seq<User>,
    presence: map<string, Status>,
    nav: Nav,
    accounts: seq<Account>)
}

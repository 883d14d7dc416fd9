/**
 The client-side authentication store: four fields and three actions, each
 action a pure transition from the old state to the new one (the store's
 `set` merges the given fields into the current state).
 */
module AuthStore {
  import opened Nullable

  /** The user profile the backend returns. */
  datatype User = User(id: string, email: string, name: Option<string>, createdAt: string, updatedAt: string)

  datatype AuthState = AuthState(user: Option<User>, token: Option<string>, isAuthenticated: bool, isLoading: bool)

  /** Authenticated exactly when a token is held, and a token is held
      exactly when a user is. */
  predicate Consistent(st: AuthState) {
    && (st.isAuthenticated <==> st.token.Some?)
    && (st.token.Some? <==> st.user.Some?)
  }

  /** The state the store is created with: nobody signed in, not loading. */
  const Initial := AuthState(None, None, false, false)

  /** setAuth: the session of `user` with `token`, whatever came before. */
  function SetAuth(st: AuthState, user: User, token: string): (r: AuthState)
    ensures r.user == Some(user) && r.token == Some(token)
    ensures r.isAuthenticated && !r.isLoading
    ensures Consistent(r)
  {
    AuthState(Some(user), Some(token), true, false)
  }

  /** clearAuth (logout): back to the initial state from anywhere. */
  function ClearAuth(st: AuthState): (r: AuthState)
    ensures r == Initial && Consistent(r)
  {
    AuthState(None, None, false, false)
  }

  /** setLoading: only the loading flag changes. */
  function SetLoading(st: AuthState, isLoading: bool): (r: AuthState)
    ensures r.isLoading == isLoading
    ensures r.user == st.user && r.token == st.token && r.isAuthenticated == st.isAuthenticated
    ensures Consistent(st) ==> Consistent(r)
  {
    st.(isLoading := isLoading)
  }

  /** Logging out twice is logging out once, and logging out after a login
      leaves no trace of it. */
  lemma ClearAuthIdempotent(st: AuthState, user: User, token: string)
    ensures ClearAuth(ClearAuth(st)) == ClearAuth(st)
    ensures ClearAuth(SetAuth(st, user, token)) == Initial
  {
  }

  datatype Action = SetAuthAction(user: User, token: string) | ClearAuthAction | SetLoadingAction(isLoading: bool)

  function Apply(st: AuthState, a: Action): AuthState {
    match a
    case SetAuthAction(u, t) => SetAuth(st, u, t)
    case ClearAuthAction => ClearAuth(st)
    case SetLoadingAction(b) => SetLoading(st, b)
  }

  /** The state after performing `acts` in order. */
  function Run(st: AuthState, acts: seq<Action>): AuthState
    decreases |acts|
  {
    if acts == [] then st else Run(Apply(st, acts[0]), acts[1..])
  }

  lemma {:induction false} RunAppend(st: AuthState, acts: seq<Action>, a: Action)
    ensures Run(st, acts + [a]) == Apply(Run(st, acts), a)
    decreases |acts|
  {
    if acts != [] {
      assert (acts + [a])[1..] == acts[1..] + [a];
      RunAppend(Apply(st, acts[0]), acts[1..], a);
    }
  }

  /** Every action keeps the invariant, so every state reachable from the
      initial one satisfies it. */
  lemma {:induction false} RunKeepsConsistent(st: AuthState, acts: seq<Action>)
    requires Consistent(st)
    ensures Consistent(Run(st, acts))
    decreases |acts|
  {
    if acts != [] {
      RunKeepsConsistent(Apply(st, acts[0]), acts[1..]);
    }
  }

  lemma ReachableIsConsistent(acts: seq<Action>)
    ensures Consistent(Run(Initial, acts))
  {
    RunKeepsConsistent(Initial, acts);
  }

  /** The session that the last setAuth or clearAuth in `acts` left behind;
      setLoading plays no part. */
  function LastSession(acts: seq<Action>): Option<(User, string)>
    decreases |acts|
  {
    if acts == [] then None
    else match acts[|acts| - 1]
      case SetAuthAction(u, t) => Some((u, t))
      case ClearAuthAction => None
      case SetLoadingAction(_) => LastSession(acts[..|acts| - 1])
  }

  /** From the initial state, the user and token held are those of the last
      login not followed by a logout, and none when there is no such login. */
  lemma {:induction false} RunHoldsLastSession(acts: seq<Action>)
    ensures var st := Run(Initial, acts);
      && (st.isAuthenticated <==> LastSession(acts).Some?)
      && (LastSession(acts).Some? ==>
            st.user == Some(LastSession(acts).value.0) && st.token == Some(LastSession(acts).value.1))
    decreases |acts|
  {
    if acts != [] {
      var init := acts[..|acts| - 1];
      assert acts == init + [acts[|acts| - 1]];
      RunAppend(Initial, init, acts[|acts| - 1]);
      RunHoldsLastSession(init);
    }
  }
}

/**
 * The Gmail authentication step machine, `gmail_authenticate` (bidWinner.py:134-211).
 * One call is one script run: the stored token is tried first, then the session's
 * `auth_step` ('start', 'get_code', 'complete') decides what the run does. The OAuth
 * library, the token file and the browser round trip are reduced to the outcomes
 * collected in `AuthEnv`.
 */
module GmailAuth {
  import opened Wrappers
  import opened Text
  import opened AuthCode

  /** `st.session_state.auth_step`. */
  datatype AuthStep = Start | GetCode | Complete

  /** What the model needs of a `google.oauth2` credential. */
  datatype Credential = Credential(valid: bool, expired: bool, hasRefreshToken: bool)

  /** Everything a run of `gmail_authenticate` learns from outside the session. */
  datatype AuthEnv = AuthEnv(
    tokenFile: Option<Credential>, // token.json, when it exists
    refreshOk: bool,               // `creds.refresh(Request())` succeeds
    startPressed: bool,            // "Start Authentication Process" pressed this run
    secretsOk: bool,               // credentials.json loads and the flow is built
    redirectUrl: string,           // the text pasted into the redirect-URL box
    exchangeOk: bool               // `fetch_token(code=...)` and saving the token succeed
  )

  /** How a run ends: the function returns, `st.experimental_rerun()` restarts the
      script, or an exception escapes the function. */
  datatype AuthOutcome = Returned(creds: Option<Credential>) | Rerun | Raised

  /** A stored token that is valid on its own (bidWinner.py:143-146). */
  predicate HasValidToken(env: AuthEnv) {
    env.tokenFile.Some? && env.tokenFile.value.valid
  }

  /** A stored token that is refreshed rather than re-authorised (bidWinner.py:149). */
  predicate CanRefresh(env: AuthEnv) {
    env.tokenFile.Some? && !env.tokenFile.value.valid
    && env.tokenFile.value.expired && env.tokenFile.value.hasRefreshToken
  }

  /** The stored token settles the run before the step machine is consulted. */
  predicate TokenDecides(env: AuthEnv) {
    HasValidToken(env) || CanRefresh(env)
  }

  /** The redirect URL is present, carries a code, and the code is exchanged
      (bidWinner.py:188-201). */
  predicate ExchangeSucceeds(env: AuthEnv) {
    env.redirectUrl != [] && ExtractCode(env.redirectUrl).Some? && env.exchangeOk
  }

  /** Position of a step in the flow. */
  function Rank(s: AuthStep): nat {
    match s
    case Start => 0
    case GetCode => 1
    case Complete => 2
  }

  /** One run of `gmail_authenticate`: the step it leaves behind and how it ends.
      The step never moves backwards, moves at most one place, and only in a run
      that ends with a rerun. */
  function Authenticate(step: AuthStep, env: AuthEnv): (r: (AuthStep, AuthOutcome))
    ensures Rank(step) <= Rank(r.0) <= Rank(step) + 1
    ensures r.0 != step ==> r.1 == Rerun
  {
    var creds := env.tokenFile;
    if HasValidToken(env) then (step, Returned(creds))
    else if CanRefresh(env) then
      if env.refreshOk then (step, Returned(Some(Credential(true, false, true))))
      else (step, Raised)
    else
      match step
      case Start =>
        if !env.startPressed then (Start, Returned(creds))
        else if env.secretsOk then (GetCode, Rerun)
        else (Start, Raised)
      case GetCode =>
        if ExchangeSucceeds(env) then (Complete, Rerun)
        else (GetCode, Returned(creds))
      case Complete =>
        if creds.Some? then (Complete, Returned(creds)) else (Complete, Raised)
  }

  /** A valid stored token is returned as it is and the step is left alone. */
  lemma ValidTokenShortCircuits(step: AuthStep, env: AuthEnv)
    requires HasValidToken(env)
    ensures Authenticate(step, env) == (step, Returned(env.tokenFile))
  {
  }

  /** An expired token with a refresh token is refreshed: the step is left alone and
      the run returns a valid credential, or raises when the refresh fails. */
  lemma RefreshKeepsStep(step: AuthStep, env: AuthEnv)
    requires CanRefresh(env)
    ensures Authenticate(step, env).0 == step
    ensures Authenticate(step, env).1 == (if env.refreshOk then Returned(Some(Credential(true, false, true))) else Raised)
  {
  }

  /** 'start' moves to 'get_code' exactly when the token does not decide the run, the
      start button is pressed and the client secrets load; otherwise it stays. */
  lemma StartAdvancesOnlyOnPress(env: AuthEnv)
    ensures Authenticate(Start, env).0 == GetCode <==>
            !TokenDecides(env) && env.startPressed && env.secretsOk
    ensures Authenticate(Start, env).0 in {Start, GetCode}
  {
  }

  /** 'get_code' moves to 'complete' exactly when the token does not decide the run and
      the pasted URL is non-empty, holds a code and the code is exchanged; any failure
      leaves the step at 'get_code' and the run returns normally. */
  lemma GetCodeAdvancesOnlyOnExchange(env: AuthEnv)
    ensures Authenticate(GetCode, env).0 == Complete <==> !TokenDecides(env) && ExchangeSucceeds(env)
    ensures !TokenDecides(env) && !ExchangeSucceeds(env) ==>
              Authenticate(GetCode, env) == (GetCode, Returned(env.tokenFile))
  {
  }

  /** A pasted URL without `code=` is an error the function catches: the step stays. */
  lemma MissingCodeKeepsGetCode(env: AuthEnv)
    requires !TokenDecides(env)
    requires forall j :: !OccursAt(env.redirectUrl, CodeKey, j)
    ensures Authenticate(GetCode, env) == (GetCode, Returned(env.tokenFile))
  {
    ExtractCodeFails(env.redirectUrl);
  }

  /** No run leaves 'complete'. */
  lemma CompleteIsFinal(env: AuthEnv)
    ensures Authenticate(Complete, env).0 == Complete
  {
  }

  /** The step after a sequence of runs. */
  function StepAfter(step: AuthStep, envs: seq<AuthEnv>): AuthStep
    decreases |envs|
  {
    if envs == [] then step else StepAfter(Authenticate(step, envs[0]).0, envs[1..])
  }

  /** Whatever happens, the step never moves backwards. */
  lemma {:induction false} StepNeverRegresses(step: AuthStep, envs: seq<AuthEnv>)
    ensures Rank(step) <= Rank(StepAfter(step, envs))
    decreases |envs|
  {
    if envs != [] {
      StepNeverRegresses(Authenticate(step, envs[0]).0, envs[1..]);
    }
  }

  /** Authentication is complete only after some run, taken while in 'get_code',
      exchanged a code successfully: pressing buttons alone never gets there. */
  lemma {:induction false} CompleteNeedsExchange(step: AuthStep, envs: seq<AuthEnv>)
    requires step != Complete
    requires StepAfter(step, envs) == Complete
    ensures exists i :: 0 <= i < |envs| && !TokenDecides(envs[i]) && ExchangeSucceeds(envs[i])
    decreases |envs|
  {
    var next := Authenticate(step, envs[0]).0;
    if step == GetCode && next == Complete {
      assert !TokenDecides(envs[0]) && ExchangeSucceeds(envs[0]);
    } else {
      assert next != Complete;
      CompleteNeedsExchange(next, envs[1..]);
      var i :| 0 <= i < |envs[1..]| && !TokenDecides(envs[1..][i]) && ExchangeSucceeds(envs[1..][i]);
      assert envs[1..][i] == envs[i + 1];
    }
  }
}

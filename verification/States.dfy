/** The state file: password and secret versions of each application. */
module States {
  import opened Options

  datatype AppState = AppState(passwordVersion: Option<int>, secretVersions: map<string, int>)

  const NO_STATE := AppState(None, map[])

  class State {
    var applications: map<string, AppState>

    constructor ()
      ensures applications == map[]
    {
      applications := map[];
    }

    /** What is recorded of an application; nothing is the same as no entry. */
    function Of(app: string): AppState
      reads this
    {
      if app in applications then applications[app] else NO_STATE
    }

    /** No application has an empty entry. */
    ghost predicate Clean()
      reads this
    {
      forall app :: app in applications ==> applications[app] != NO_STATE
    }

    /** Stores an application's entry, and drops it when it is empty (`cleanupApp`). */
    method Put(app: string, entry: AppState)
      modifies this
      ensures Of(app) == entry && forall a :: a != app ==> Of(a) == old(Of(a))
      ensures old(Clean()) ==> Clean()
    {
      applications := applications[app := entry];
      if entry.passwordVersion == None && |entry.secretVersions| == 0 {
        applications := map a | a in applications && a != app :: applications[a];
      }
    }

    method SetPasswordVersion(app: string, version: Option<int>)
      modifies this
      ensures Of(app) == old(Of(app)).(passwordVersion := version)
      ensures forall a :: a != app ==> Of(a) == old(Of(a))
      ensures old(Clean()) ==> Clean()
    {
      Put(app, Of(app).(passwordVersion := version));
    }

    method SetSecretEnvVersion(app: string, key: string, version: Option<int>)
      modifies this
      ensures var secrets := old(Of(app)).secretVersions;
              var secrets' := if version.Some? then secrets[key := version.value] else secrets - {key};
              Of(app) == old(Of(app)).(secretVersions := secrets')
      ensures forall a :: a != app ==> Of(a) == old(Of(a))
      ensures old(Clean()) ==> Clean()
    {
      var secrets := Of(app).secretVersions;
      secrets := if version.Some? then secrets[key := version.value] else secrets - {key};
      Put(app, Of(app).(secretVersions := secrets));
    }
  }
}

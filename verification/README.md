# aws-vault `exec`: option rules and subprocess environment

A Dafny model of the pure logic in `cli/exec.go` of aws-vault, the command
that runs a subprocess with temporary AWS credentials:

- **Option validation** (`ExecInput`). `validate` rejects incompatible
  option combinations. Asking for the EC2 and the ECS credential server
  together is rejected. So is asking for either server together with
  `--json`, `--no-session` or the `terminal` MFA prompt driver.
  `hasBackgroundServer` says whether a server was asked for. The model
  describes the rules as a table of incompatible option pairs (`Incompatible`).
  It proves that `Validate` rejects exactly the inputs that switch on both
  options of some pair. It also proves that the error reported is the first
  violated rule in the order the source checks them.
- **Environment editing** (`Environ`). An `environ` is a list of
  `"key=value"` strings. `Unset(key)` finds the first entry that starts with
  `key=`, moves the last entry into its slot and drops the last slot. It
  stops after that first entry. `Set(key, val)` does `Unset(key)` and then
  appends `key=val`. Two reference views state what these edits do:
  - `Count(env, key)`: the number of entries for `key`.
  - `Lookup(env, key)`: the value of the first entry for `key`. This is the
    value any reader sees when the key occurs at most once.
- **Building the subprocess environment** (`ExecEnv`).
  - `updateEnvForAwsVault` unsets eight credential and profile variables once
    each. It then sets `AWS_VAULT` to the profile name. When a region is
    given, it also sets `AWS_REGION` and `AWS_DEFAULT_REGION` to it.
  - The environment part of `execEnvironment` then sets
    `AWS_ACCESS_KEY_ID` and `AWS_SECRET_ACCESS_KEY`. It sets
    `AWS_SESSION_TOKEN` only when the credentials carry a token. It sets
    `AWS_CREDENTIAL_EXPIRATION` only when they can expire.
  - Each of these steps is described per variable name. Its effect on `Count`
    holds for any incoming environment. Its effect on `Lookup` holds whenever
    the incoming environment lists the name at most once. For any incoming
    environment, each entry the steps write is in the result (the `...Holds`
    lemmas).

Behaviour that the proofs bring out, all modelled as written:

- The comment on `Set` says it replaces "any existing ones". The code
  removes only the first earlier entry. With two or more earlier entries
  for the key, one of them stays before the new entry
  (`Environ.SetKeepsLaterDuplicates`, `Environ.SetKeepsLaterDuplicatesExample`).
  With at most one earlier entry, the key ends with exactly one entry.
- Each scrubbed variable loses only one entry. The key pair, and the session
  token when the credentials carry one, are scrubbed and then set again, so
  they lose two earlier entries in all. Without a token, `AWS_SESSION_TOKEN`
  loses one.
  `AWS_ACCESS_KEY_ID` therefore ends unique whenever the parent environment
  held it at most twice (`ExecEnv.ExecEnvironmentCount`).
- Removal swaps the last entry into the freed slot, so entries move.
  Suppose the parent environment already has an `AWS_DEFAULT_REGION`
  entry. Then setting `AWS_DEFAULT_REGION` moves the freshly appended
  `AWS_REGION` entry into that slot. This can move `AWS_REGION` away from
  next to last. Both region variables still hold the region
  (`ExecEnv.UpdateEnvRegionOrder`, `ExecEnv.UpdateEnvRegionOrderExample`).
- `AWS_CREDENTIAL_EXPIRATION` is not among the scrubbed variables. When the
  credentials cannot expire, a value inherited from the parent environment
  passes through unchanged (`ExecEnv.ExecEnvironmentLookup`).

Inputs the program gets from elsewhere are parameters. The parent
environment is the `env` argument. The credentials are a `Credentials`
record. The ISO 8601 formatting of the expiry time is an arbitrary function
`formatTime`. The region is a string.

## Model

| member | source | states |
|---|---|---|
| `ExecInput.Validate` | cli/exec.go:38-62 | no error exactly when no incompatible pair of options is switched on together; a reported error names a pair that is incompatible and switched on, and no rule checked earlier is violated |
| `ExecInput.HasBackgroundServer` | cli/exec.go:64-66 | true exactly when the EC2 or the ECS server option is switched on |
| `ExecInput.ValidateRejectsOnlyWithServer` | cli/exec.go:38-66 | rejected exactly when a server is requested together with the other server, `--json`, `--no-session` or the terminal prompt; without a server every input is accepted |
| `ExecInput.ValidateRejectsBothServers` | cli/exec.go:39-41 | with both servers requested, the error is the EC2-with-ECS one, whatever else is set |
| `Environ.FirstMatch` | cli/exec.go:290-291 | the index found is an entry starting with `key=` and no earlier entry does; none is found exactly when no entry is for the key |
| `Environ.DistinctKeysDisjoint` | cli/exec.go:291 | the `key=` prefix test never lets one entry belong to two different variable names |
| `Environ.Unset` | cli/exec.go:288-297 | with no entry for the key the environment is unchanged; otherwise it is one shorter, the first entry's slot holds the former last entry and every other position keeps its entry |
| `Environ.UnsetInPlace` | cli/exec.go:289-297 | the scan that stops at the first entry for the key computes the same list as `Unset` |
| `Environ.UnsetMultiset` | cli/exec.go:289-297 | `Unset` removes exactly one occurrence of the first entry for the key and keeps all other entries with their multiplicity |
| `Environ.UnsetKeeps` | cli/exec.go:289-297 | an entry that is not for the key occurs as often after `Unset` as before |
| `Environ.UnsetCountByKey` | cli/exec.go:289-297 | `Unset` lowers the number of entries for its key by one (never below zero) and leaves every other variable's count alone |
| `Environ.UnsetLookupByKey` | cli/exec.go:289-297 | for a variable listed at most once, `Unset` removes its value and keeps every other variable's value |
| `Environ.Set` | cli/exec.go:299-303 | the new entry `key=val` is last; the length grows by one, less one when an earlier entry for the key existed |
| `Environ.SetKeeps` | cli/exec.go:299-303 | an entry that is not for the key occurs as often after `Set` as before |
| `Environ.SetCountByKey` | cli/exec.go:299-303 | `Set` leaves one fewer earlier entry for the key plus the new one, and every other variable's count alone |
| `Environ.SetLookupByKey` | cli/exec.go:299-303 | for a variable listed at most once, after `Set` the key reads `val` and every other variable reads as before |
| `Environ.SetKeepsOtherEntry` | cli/exec.go:299-303 | an entry for a different variable name stays in the list through `Set`, whatever else the list holds |
| `Environ.SetKeepsLaterDuplicates` | cli/exec.go:299-303 | with two or more earlier entries for the key, their number does not drop and one of them stays before the new entry |
| `Environ.SetKeepsLaterDuplicatesExample` | cli/exec.go:299-303 | `Set(["K=1", "K=2"], "K", "3")` is `["K=2", "K=3"]`, so `Lookup` gives the stale value `2` for `K`; a reader that keeps the last entry sees `3` |
| `ExecEnv.UnsetEach` | cli/exec.go:194-201 | unsetting several names shortens the environment by at most one entry per name |
| `ExecEnv.UnsetEachCount` | cli/exec.go:194-201 | each listed name loses at most one entry and every other name keeps all its entries |
| `ExecEnv.UnsetEachLookup` | cli/exec.go:194-201 | a listed name that occurred at most once has no value afterwards; every other name keeps its value |
| `ExecEnv.UnsetEachKeeps` | cli/exec.go:194-201 | entries for none of the listed names keep their multiplicity |
| `ExecEnv.UpdateEnvForAwsVault` | cli/exec.go:193-214 | without a region the last entry is `AWS_VAULT=<profile>`; with one it is `AWS_DEFAULT_REGION=<region>` |
| `ExecEnv.UpdateEnvCount` | cli/exec.go:193-214 | each scrubbed variable loses at most one entry; `AWS_VAULT`, and the region variables when a region is given, lose at most one and gain one; every other variable keeps its entries |
| `ExecEnv.UpdateEnvLookup` | cli/exec.go:193-214 | for a variable listed at most once: scrubbed variables have no value, `AWS_VAULT` holds the profile name, the region variables hold a given region, every other variable keeps its value |
| `ExecEnv.UpdateEnvKeeps` | cli/exec.go:193-214 | every entry not for one of the eleven variables touched, including entries without `=`, keeps its multiplicity |
| `ExecEnv.UpdateEnvHolds` | cli/exec.go:203-211 | for any incoming environment, `AWS_VAULT=<profile>` is in the result, and so are `AWS_REGION=<region>` and `AWS_DEFAULT_REGION=<region>` when a region is given |
| `ExecEnv.UpdateEnvRegionOrder` | cli/exec.go:205-211 | with a region and no incoming `AWS_DEFAULT_REGION` entry, the last two entries are `AWS_REGION=<region>` then `AWS_DEFAULT_REGION=<region>` |
| `ExecEnv.UpdateEnvRegionOrderExample` | cli/exec.go:203-211 | `UpdateEnvForAwsVault(["AWS_DEFAULT_REGION=eu-west-1"], "dev", "us-east-1")` is `["AWS_REGION=us-east-1", "AWS_VAULT=dev", "AWS_DEFAULT_REGION=us-east-1"]` |
| `ExecEnv.SetCredentials` | cli/exec.go:265-276 | the last entry is the expiry when the credentials can expire, else the session token when there is one, else the secret key |
| `ExecEnv.SetCredentialsHolds` | cli/exec.go:265-276 | for any incoming environment, the key pair entries are in the result, the session token entry when the token is non-empty, the expiry entry when the credentials can expire |
| `ExecEnv.SetCredentialsKeepsBase` | cli/exec.go:266-276 | an entry for `AWS_VAULT` or a region variable stays in the list through the credential writes |
| `ExecEnv.SetCredentialsCount` | cli/exec.go:265-276 | the key pair always gets a new entry; the session token gets one only when it is non-empty; the expiry only when the credentials can expire; other variables keep their entries |
| `ExecEnv.SetCredentialsLookup` | cli/exec.go:265-276 | for a variable listed at most once, the key pair, a non-empty token and an expiry that applies hold the credentials' values; everything else reads as before |
| `ExecEnv.ExecEnvironment` | cli/exec.go:262-276 | the last entry is the expiry when the credentials can expire, else the session token when there is one, else the secret key |
| `ExecEnv.ExecEnvironmentHolds` | cli/exec.go:262-276 | for any parent environment, the result holds `AWS_VAULT=<profile>`, the region entries when a region is given, the key pair, a non-empty session token and an expiry that applies |
| `ExecEnv.ExecEnvironmentCount` | cli/exec.go:262-276 | from the parent environment: the key pair keep their new entry plus any beyond two earlier ones; the session token gets a new entry only when non-empty; the unscrubbed expiry gets one only when the credentials can expire; other variables end as `UpdateEnvForAwsVault` leaves them |
| `ExecEnv.ExecEnvironmentLookup` | cli/exec.go:262-276 | for a variable the parent lists at most once: the key pair hold the credentials' keys, the session token holds the token or nothing, the expiry holds the formatted expiry or keeps the inherited value, other variables end as `UpdateEnvForAwsVault` leaves them |

## Left out

- `ConfigureExecCommand` (cli/exec.go:68-152): command-line parser wiring and the choice between `exec` and the deprecated JSON export. It is parser configuration and side effects, not logic.
- `ExecCommand` (cli/exec.go:154-191) is left out. This covers its check of the real process environment for `AWS_VAULT`, the global `vault.UseSession` switch, profile loading and keyring construction. These are process state and packages that are not part of this model.
- `execEc2Server` and `execEcsServer` (cli/exec.go:216-254): HTTP credential servers, a goroutine and a fatal log call. This includes the two container variables the ECS path sets, which depend on the server's URL and token.
- `execEnvironment`'s call to the credentials provider and its error message (cli/exec.go:257-260) are left out, because the provider is a foreign call. The credentials are an input record instead.
- `iso8601.Format` is not part of this model. It is the parameter `formatTime`, and a time is an opaque integer.
- `doRunCmd`, `doExecSyscall`, `getDefaultShell` and `supportsExecSyscall` (cli/exec.go:305-379) are left out. They launch subprocesses, forward signals, replace the process and read the operating system. Log output is left out too.
- `vault.Config` is reduced to two fields. The MFA prompt method is read by `Validate`. The region mirrors the `--region` flag (cli/exec.go:81-82) and no member reads it. The region written into the environment is the loaded profile's (cli/exec.go:223, 242, 263), and it is a separate parameter of the environment functions.
- `Environ.UnsetLookupByKey`, `Environ.SetLookupByKey` and `ExecEnv.UnsetEachLookup` are stated only for a variable listed at most once. `Lookup` reads the first entry for a name, and with duplicates a stale later entry can become the first one: on `Set(["K=1", "K=2"], "K", "3")`, `Lookup` gives `2` for `K` (`Environ.SetKeepsLaterDuplicatesExample`). Which duplicate a program sees depends on its reader: one that takes the first entry (as `getenv` does after `syscall.Exec`, cli/exec.go:378) sees `2`. Go's `os/exec`, used by `doRunCmd` (cli/exec.go:324-328), keeps the last value and passes `3`. The matching `Count` lemmas and the `...Holds` membership lemmas cover environments with duplicates.
- `ExecEnv.UpdateEnvLookup`, `ExecEnv.SetCredentialsLookup` and `ExecEnv.ExecEnvironmentLookup` have the same restriction, for the same reason.
- `ExecEnv.UpdateEnvCount`, `ExecEnv.SetCredentialsCount`, `ExecEnv.ExecEnvironmentCount`, `Environ.UnsetCountByKey` and `Environ.SetCountByKey` are stated for variable names without `=`. Such a name can claim entries of another name (`A` and `A=B` both claim `A=B=c`).
- `ExecEnv.UpdateEnvRegionOrder` requires that the parent environment has no `AWS_DEFAULT_REGION` entry. Without that, the order claim can fail, as `ExecEnv.UpdateEnvRegionOrderExample` shows.

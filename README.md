# corebootnerf step pipeline, modelled in Dafny

corebootnerf builds a LinuxBoot coreboot ROM by running a fixed sequence of
steps: check the environment, clean up, install OS package dependencies, clone
the kernel, fetch coreboot, build the kernel, and build coreboot. This project
models the parts of `nerf.go` that make decisions and proves properties about them:

- the runner loop of `allFunc`. It walks an ordered table of steps. Each step
  has a name, a precomputed skip flag and an ignore-failure flag. The loop
  passes over skipped steps and invokes every other step's action. It stops
  at the first failure that is not ignored, and reports the step name joined
  to the cause (`Pipeline`);
- the concrete seven-step table, whose skip flags come from the `--deps`,
  `--fetch` and `--customkern` options, and the return behaviour of
  `kernelGet` (`Nerf`);
- the dependency installers `pacmaninstall`, `dnfinstall` and `aptget`. Each
  probes every package in its list, keeps the packages whose probe failed,
  and issues one `sudo` install command when any are missing. Also modelled
  is `depinstall`, which picks the installer from the os-release ID (`Deps`).

External processes are not run. An action's outcome is an oracle supplied up
front: one `Outcome` per step for the runner, one boolean per package
position for the probes, and one `Outcome` for the install command. The
runner returns the trace of step indices whose actions it invoked. The
installers return the argument vectors of the commands they would issue.
Go's `error` is `Outcome` (`Ok` for nil, `Err(msg)` otherwise). The runner
wraps errors with `fmt.Errorf("%v: %v", …)`, which flattens them, so the
wrapped error is modelled as the string `name + ": " + msg`.

Files: `outcomes.dfy` (shared datatypes), `pipeline.dfy` (the generic
runner: the specification function `Run`, the loop `RunAll` and lemmas),
`nerf.dfy` (the step table), `deps.dfy` (dependency selection).

## Model

| member | source | states |
|---|---|---|
| `Pipeline.RunAll` | nerf.go:319-336 | The loop returns exactly the outcome and invocation trace of the step-by-step specification `Run`: skip, invoke, discard if ignored, stop on the first counted error. |
| `Pipeline.InvokedInOrder` | nerf.go:319-324 | The steps the runner would invoke from a range are listed in strictly increasing table order. That list contains exactly the steps in the range that are not skipped. |
| `Pipeline.RunFromCharacterized` | nerf.go:319-336 | Starting at any index, if no later step is invoked, not ignored and failing, the run returns nil and invokes every non-skipped step. Otherwise it returns the first such step's wrapped error, and the trace runs up to and including that step. |
| `Pipeline.RunSucceedsIff` | nerf.go:319-336 | A run returns nil if and only if no invoked, non-ignored step fails. In that case every non-skipped step's action was invoked exactly once, in table order. |
| `Pipeline.RunFailsFast` | nerf.go:326-333 | At the first non-skipped, non-ignored failing step, the run returns that step's name joined by ": " to the underlying error. That step is the last action invoked, and no later step's action is invoked. |
| `Pipeline.RunTraceInOrder` | nerf.go:319-326 | For any outcomes, every invoked action belongs to a step that is not skipped. Steps are visited in strictly increasing table order, so each action runs at most once. |
| `Pipeline.UnjudgedOutcomeIrrelevant` | nerf.go:321-330 | Changing the outcome of a skipped step or of an ignore-flagged step leaves the run's result and trace unchanged. The ignore check comes before the error check, so an ignored step continues whether it failed or not. |
| `Pipeline.SucceedingStepNeverStops` | nerf.go:331-333 | A step whose action returns nil is never the step a failing run stops at. |
| `Nerf.Table` | nerf.go:304-317 | Seven steps, none ignore-flagged. "check environment" and "build coreboot" always run. "cleanup" and "Git clone the kernel" run only with both customkern and fetch. "install depenedencies" runs only with deps, "Git clone coreboot" only with fetch, and "build the kernel" only with customkern. |
| `Nerf.TableInvokes` | nerf.go:310-316 | The non-skipped steps of the table are exactly the option-driven list `EnabledSteps`, in order. |
| `Nerf.TableRunsEnabledSteps` | nerf.go:310-336 | If every action succeeds, the pipeline returns nil having invoked exactly the steps the options enable, in table order. |
| `Nerf.DefaultRun` | nerf.go:310-316 | With none of the three options given, only "check environment" (0) and "build coreboot" (6) run. |
| `Nerf.TableStopsAtFirstFailure` | nerf.go:310-333 | No table step is ignore-flagged. So the pipeline fails with the name and cause of the first enabled step whose action fails, and invokes nothing after it. |
| `Nerf.KernelGet` | nerf.go:90-99 | `kernelGet` returns nil whether or not the clone succeeds. |
| `Nerf.KernelAndDepsNeverStopRun` | nerf.go:95-98 | The pipeline never stops at the kernel-clone step. It never stops at the dependency step either when `depinstall` returns, because it returns only nil. |
| `Deps.Dispatch` | nerf.go:285-298 | fedora/rhel select dnf, debian/ubuntu select apt and arch selects pacman. Every other ID selects nothing. |
| `Deps.FailedProbesInOrder` | nerf.go:208-214 | The failed-probe positions are listed once each, in increasing order. They are exactly the positions whose probe failed. |
| `Deps.MissingAtFailedProbes` | nerf.go:208-214 | The missing list is the package list read at exactly the failed positions, in original order. It is a subsequence that keeps duplicates. |
| `Deps.NothingMissingIff` | nerf.go:216-219 | The missing list is empty if and only if every probe succeeded. |
| `Deps.AllProbesFailed` | nerf.go:253-259 | When every probe fails, the missing list is the whole package list, repeated entries included. |
| `Deps.DebianKeepsDuplicateGnat` | nerf.go:35-48 | On a Debian system with nothing installed, "gnat" is requested twice, at positions 5 and 7 of the missing list. |
| `Deps.ProbeAll` | nerf.go:207-214 | One probe command per list position, in order (`pacman -Ql`, `dnf info` or `dpkg -s`). The returned missing list is the failed-probe filter of the package list. |
| `Deps.InstallMissing` | nerf.go:207-272 | The manager's global package list is passed in as a parameter. After the probes, an empty missing list issues no command and returns nil. Otherwise one `sudo` command is issued: `pacman -S --noconfirm`, `dnf -y install` or `apt-get -y install`, followed by the missing packages. Its result is returned. |
| `Deps.DepInstall` | nerf.go:275-301 | The process exits if and only if os-release cannot be loaded or its ID is unsupported. Otherwise the selected installer's commands are issued, and the result is nil whatever the installer returned. |

## Left out

- Process execution (`git`, `wget`, `tar`, `make`, `pacman`, `dnf`, `dpkg`, `sudo`) is not modelled. Each command's success or failure is an input.
- The bodies of `check`, `cleanup`, `corebootGet`, `buildKernel`, `buildCoreboot` and `cp` are not modelled. They read the environment or the file system, or run external tools. Their results reach the runner only as per-step outcomes.
- Reading /etc/os-release with the ini library is not modelled. The ID arrives as an input, or as None when the file cannot be loaded.
- Nerf.KernelGet: the clone command's argument vector is not modelled, only its return behaviour.
- `log.Fatal` in `depinstall` is modelled as the result `Exited`. What it does to the process (the pipeline ends without returning from `allFunc`) is outside the runner model.
- Log and printf output, pflag option parsing, and the `runtime.NumCPU` thread count are not modelled.
- config.go is not part of this model. It only embeds configuration files.

# incuspace: a verified model

incuspace is a control panel for Incus. This project models the parts of it that hold state and do arithmetic, and
proves what they promise over every input, every run and every interleaving:

- `PortAllocator`, `Registry`, `Capacity`: first-fit allocation of port ranges, the instances table, and the `Create`
  transactions that share it with lock-free deletes under one advisory lock.
- `Quota`, `QuotaRuns`, `SplitSet`: the quota rows, the poll that turns counters into usage, runs of traffic, stops,
  readings, polls, settings and resets, and what the two statements of `Set` do to each other operation.
- `Incus`, `Bandwidth`, `PlanLimits`: instance devices over profile devices, the NIC limit override, and the repair
  pass at startup.
- `Proxy`, `HostPorts`: port-forwarding rules, their printer and parser, and the machine that puts the registry, the
  creation and deletion of instances, all device updates and the snapshots together.
- `Migrations`: the schema migration runner, for one run and for any number of overlapping runs.
- `SshKeys`, `Names`: the key store and authorized_keys, identifiers and instance names.
- `Text`, `Sorting`, `Collections`, `Wrappers`: decimal numbers, splitting, trimming and sorting as Go's library does
  them; facts about sets and sequences; results.

Code that works by changing things is a method of a class (`Registry.Repo`, `Quota.Store`, `Incus.Server`,
`Migrations.Database`, `SshKeys.Store`, `SshKeys.KeyFile`) or a method with a loop, tied by its contract to a
specification function or relation; the lemmas are about that specification. Tables and device sets are maps in fields
that the methods reassign. A Go loop over a map is a loop that picks any remaining key. Verdicts of the database, of
Incus and of the file system, the clock and fresh identifiers are parameters.

## What turned out not to hold

- An allocation can leave the pool: the scan does not look at the pool's end between two stored ranges
  (internal/instances/repo.go:92-99). `PortAllocator.AllocationEscapesPoolIff` says exactly when; tables built by
  `Create` never get there (`Registry.RunsAreSafe`).
- A host port can be claimed twice, because rows, which free port ranges, go while their instances stay in Incus. The
  delete handler does not wait for the operation it gets from Incus and removes the row at once
  (internal/api/handler/handler.go:499-508), so the instance keeps its proxy devices while the deletion runs, and for
  good if it fails. Deleting a user cascades to the rows and leaves the instances
  (internal/api/handler/users.go:51-67). `HostPorts.StepKeepsExclusiveIff` and `HostPorts.RunIsExclusiveIff` say exactly
  which steps and runs of the code stay exclusive; `HostPorts.DeletionLetsAPortBeClaimedTwice` and
  `HostPorts.UserDeletionLetsAPortBeClaimedTwice` are runs of the code, in every pool, that end with two listeners.
- An all-empty bandwidth request on a NIC with an own device and no limits drops that device, and removes the NIC if no
  profile defines it (internal/api/handler/bandwidth.go:126-144). `Bandwidth.RequestChangesOnlyLimitsIff` and
  `Bandwidth.GetAfterPutIff` give the exact conditions for what is changed and what is read back,
  `Bandwidth.ClearingLimitsCanRemoveTheNic` the worst case. `devicesEqual` takes an absent key for an empty one
  (`Bandwidth.DevicesEqualIff`).
- `Set` reads and writes in two statements (internal/quota/store.go:88-115), and the write takes back what another
  operation stored in between. For a poll, a reset and another `Set` in between, `SplitSet.PollBetweenIsHarmlessIff`,
  `SplitSet.ResetBetweenIsHarmlessIff` and `SplitSet.SetBetweenIsHarmlessIff` say exactly when that does no harm. The
  harms: an action that fired fires again, a month's usage is zeroed twice, the latch is closed over a usage below the
  limit, and a reset quota stays silent whatever traffic follows (the other lemmas of `SplitSet`).
- The error of a poll's update is discarded (internal/quota/monitor.go:76-106), and the action fires either way. While
  nobody else touches the row, it fires again in the same month exactly when the earlier update was not committed and
  the new reading still reaches the limit, which wiped counters may prevent (`QuotaRuns.FiresAgainIff`).
  `QuotaRuns.ActionFiresOncePerClear` counts the firings of uncommitted polls apart, and
  `QuotaRuns.ActionsAreRecordedIff` says when there are none.
- A poll reads the counters and the clock before it locks the row (internal/quota/monitor.go:60-76). If a reset or a
  change of period falls in between and the month has changed since the reading, the update sets the reset time back
  and the next poll of the month zeroes the usage once more: `QuotaRuns.OldReadingZeroesAgainIff` says exactly when, and
  `QuotaRuns.NoSecondRolloverInAMonth` that, apart from a split `Set`, nothing else does.
- `Create` answers an error when it cannot read back the row it has committed (internal/instances/repo.go:163-166), and
  the handler deletes the instance but not the row (internal/api/handler/handler.go:367-371), so its ports and its item
  of the stock stay taken. `Registry.FailedCreateChangesNothingIff` says that no other error leaves anything behind.
- A rule whose protocol holds a colon reads back with another protocol (`Proxy.RuleRoundTrip`), and a stored key with a
  line break or a leading `#` does not read back (`SshKeys.ReadAfterWriteIff`).
- Of two migrations with one version prefix the second is never applied (`Migrations.FirstRunAppliesAllIff`).

## Assumptions

- The pool's bounds and default count do not change during a run, and the pool's bounds are 64-bit integers.
- Traffic counters are non-negative, grow with traffic and are wiped together; the clock does not go back; in
  `QuotaRuns` each method of the quota store is one atomic step (`SplitSet` says what that hides for `Set`), and a poll
  is two, its reading and its update, with anything in between. Polls of one quota do not overlap.
- An update of an instance is one step from the devices just read, because a stale etag makes Incus refuse it. A refused
  update changes nothing. In the repair pass the choice of the primary NIC does not depend on the order of a Go map:
  eth0 is a NIC or there is at most one NIC.
- `HostPorts.NoHostPortIsClaimedTwice` is about runs whose steps are taken in time: a row goes when the deletion of its
  instance has completed, an SSH task still finds the registration it belongs to, and rules are added by owners while
  the row that the middleware read is current (no etag covers that row). The machine itself has none of these guards:
  `HostPorts.RunIsExclusiveIff` is about all its runs, administrators, late tasks, outdated rows and snapshots of any
  age included. A snapshot holds the devices of its moment, a restore brings them back in one step, and an instance
  that goes takes its snapshots along. Profiles hold no proxy devices.
- In `Migrations`: a body, its version row and the commit are one transaction, and later releases only append files
  (`Migrations.NewerFilesSortBehind` says that names sorting behind the old ones are enough).

## Model

| member | source | states |
|---|---|---|
| `PortAllocator.AllocateRange` | internal/instances/repo.go:66-104 | the scan hands out the leftmost free window from the pool's start, if it ends in the pool or some stored range starts behind it, and refuses otherwise; a count of 0 or less is an error |
| `PortAllocator.AllocationIsUnique` | internal/instances/repo.go:70-89 | the answer depends on the set of stored ranges only, not on row order or repeats |
| `PortAllocator.AllocatesLeftmostInPool` | internal/instances/repo.go:91-103 | while no stored range starts past the pool: success exactly when some window of the pool is free, with the smallest such start; overlapping stored ranges allowed |
| `PortAllocator.AllocationEscapesPoolIff` | internal/instances/repo.go:92-99 | an allocation lies outside the pool exactly when the leftmost free window ends past the pool and a range is stored behind it |
| `PortAllocator.AllocationEscapesPoolExample` | internal/instances/repo.go:92-99 | a concrete table whose next allocation lies outside its pool |
| `PortAllocator.FragmentationBound` | internal/instances/repo.go:91-103 | a refusal of n ports with m ranges stored leaves at most (m + 1) * (n - 1) ports of the pool free |
| `Registry.Repo.constructor` | internal/instances/repo.go:49-51 | an empty registry over a fixed pool |
| `Registry.Repo.SelectRanges` | internal/instances/repo.go:70-88 | reads the ranges of exactly the rows that have one |
| `Registry.Repo.Create` | internal/instances/repo.go:119-166 | sold out, no ports, duplicate name, or a new row, which is answered if it can be read back; each with the table it leaves |
| `Registry.Repo.DeleteByName` | internal/instances/repo.go:223-226 | removes the named row and no other |
| `Registry.SoldOutIff` | internal/instances/repo.go:129-137 | sold out exactly when the plan has a stock and that many stored rows are of the plan |
| `Registry.RefusedIff` | internal/instances/repo.go:138-162 | otherwise refused for a count of 0 or less; for want of ports exactly when the ports asked for fit nowhere in the pool beside the stored rows; for its name exactly when they fit and a row has the name; and stored in every other case |
| `Registry.CreatedRowIsAsAsked` | internal/instances/repo.go:143-158 | the one row a creation adds holds the owner, display name and plan asked for and the lowest ports that fit, as many as asked for or the default, under the name asked for or the prefixed one, which was free; and exactly its plan has sold one item more |
| `Registry.StepKeepsSafe` | internal/instances/repo.go:119-166 | every statement of every session keeps committed ranges in the pool and disjoint, and keeps a pending range fitting |
| `Registry.RunsAreSafe` | internal/instances/repo.go:119-166 | over every interleaving of any number of transactions, rollbacks and lock-free deletes, committed ranges stay non-empty, in the pool and pairwise disjoint |
| `Registry.CreateIsARun` | internal/instances/repo.go:119-166 | the method `Create` is the interleaving with nothing between its statements |
| `Registry.CreateKeepsTableSafe` | internal/instances/repo.go:119-166 | so the method keeps the table safe |
| `Registry.DeletesNeverWait` | internal/instances/repo.go:223-226 | a delete of a name or of a user takes exactly the rows of that name or user, and like a rollback it waits for no lock |
| `Registry.OnlyTheLockIsWaitedFor` | internal/instances/repo.go:120-127 | a transaction begins at any time and waits only for the advisory lock, exactly while another holds it |
| `Registry.FailedCreateChangesNothingIff` | internal/instances/repo.go:163-166 | an error leaves the table alone exactly unless it is that of reading back, which leaves one new row with a range the allocator chose |
| `Registry.RemovalKeepsFit` | internal/instances/repo.go:223-226 | a deletion keeps the table safe and every pending range fitting |
| `Registry.StepKeepsStockSafe` | internal/instances/repo.go:129-137 | every statement keeps a plan's stock from being oversold, including by a transaction past its check |
| `Registry.RunsNeverOversell` | internal/api/handler/handler.go:305-308 | with a fixed stock, instances of a plan never exceed it in any interleaving, however many requests passed the unlocked check |
| `Capacity.LeftmostIsOnGrid` | internal/instances/repo.go:91-103 | with all ranges on the k-grid the leftmost free window is on it too |
| `Capacity.CapacityIsExact` | internal/instances/repo.go:91-103 | on the grid, an allocation of k ports succeeds exactly while fewer than floor((End-Start+1)/k) instances hold ports |
| `Capacity.CapacityInEveryRun` | internal/instances/repo.go:138-142 | when every session asks for k ports, all ranges stay on the grid and that capacity is exact in every reachable state |
| `Quota.PollRow` | internal/quota/monitor.go:76-102 | the closure's assignments compute the specified row, and report the action exactly when it fires |
| `Quota.CountedBetweenReadings` | internal/quota/monitor.go:82-89 | what counts between two readings: the bytes carried, or after a wipe those since, less the last reading if the counter has passed it again |
| `Quota.PollAddsUp` | internal/quota/monitor.go:76-102 | a poll in the month of the reset time, or of a quota without months, adds to the usage, keeps the reset time, and closes the latch, firing if it was open, exactly when a limit above 0 is reached |
| `Quota.PollStartsNewMonth` | internal/quota/monitor.go:77-81 | the first poll of a monthly quota in another month, the same month of another year included, counts from 0, with an open latch and a new reset time |
| `Quota.Store.Set` | internal/quota/store.go:88-115 | creates the row with no usage and an open latch, or stores the setting, keeping usage and readings; a changed period stamps the reset time; a raised limit or a changed action opens the latch, nothing else does and nothing closes it; no other row changes |
| `Quota.Store.Reset` | internal/quota/store.go:122-128 | zeroes usage, stamps the reset time, opens the latch |
| `Quota.Store.Delete` | internal/quota/store.go:117-120 | removes the row |
| `Quota.Store.UpdateCounters` | internal/quota/store.go:131-158 | writes the running totals only, never the settings |
| `Quota.SumAnyOrder` | internal/quota/monitor.go:64-71 | the totals over the interfaces do not depend on map order |
| `Quota.SumIsOfOtherInterfaces` | internal/quota/monitor.go:64-71 | the loopback adds nothing, every other interface its received and sent bytes in full |
| `Quota.Totals` | internal/quota/monitor.go:64-71 | the loop adds up the received and the sent bytes of the interfaces, whatever their order |
| `Quota.CheckOne` | internal/quota/monitor.go:55-107 | one poll of one instance, on the row stored when it updates and from counters and a clock read before: nothing at all, or the new row if the update commits, and the action fired either way |
| `QuotaRuns.PollSettlesFlow` | internal/quota/monitor.go:82-95 | per direction, a poll leaves the flow in order whatever happened since its reading, and up to that reading a shortfall between 0 and what wiping had hidden |
| `QuotaRuns.EventKeepsAccounted` | internal/quota/monitor.go:65-96 | every event, also between the reading and the update of a poll, keeps the two-sided bound on recorded bytes |
| `QuotaRuns.RunsAreSound` | internal/quota/monitor.go:65-106 | accounting and latch invariants hold in every reachable world |
| `QuotaRuns.UsageIsSandwiched` | internal/quota/monitor.go:82-96 | at every moment of every run after the baseline, recorded bytes never exceed the bytes carried from the first to the last reading, fall short by at most the counters at the moments they were wiped until then, and without a wipe until then equal last minus first reading |
| `QuotaRuns.UsageNeverExceedsTraffic` | internal/quota/monitor.go:90-93 | at every moment usage is at most the bytes carried since the last reading before it was last set back to 0 |
| `QuotaRuns.ActionFiresOncePerClear` | internal/quota/monitor.go:97-106 | the latch is closed exactly while one recorded action has fired since the last clear; firings are at most one more than clears and the firings of uncommitted polls; a closed latch means usage has reached the limit; after a committed poll a reached limit means a closed latch |
| `QuotaRuns.ActionsAreRecordedIff` | internal/quota/store.go:130-158 | no firing of a run is unrecorded exactly when every poll that fires is committed |
| `QuotaRuns.FiringsAndClearsAreCounted` | internal/quota/monitor.go:97-106 | the firings and clears of these statements are exactly the polls that fire and the resets, rollovers, raised limits and changed actions of the run |
| `QuotaRuns.NoLimitNeverFires` | internal/quota/monitor.go:97-97 | over a limit of 0 or less no poll fires or closes the latch |
| `QuotaRuns.SetOpensLatchIff` | internal/quota/store.go:102-113 | a setting opens a closed latch exactly when it raises the limit or changes the action, never closes one, and leaves usage and readings alone |
| `QuotaRuns.FiresAgainIff` | internal/quota/monitor.go:76-106 | of two polls of a month with only traffic, wipes, readings and uncommitted polls in between, the first of which fires, the second fires exactly when the first was not committed and what the second reads reaches the limit |
| `QuotaRuns.TotalQuotaIsNeverRolledOver` | internal/quota/monitor.go:77-81 | a poll of a quota without months leaves the reset time and what was set back alone, opens no latch and never lowers the usage |
| `QuotaRuns.TotalUsageOnlyGrows` | internal/quota/monitor.go:77-96 | over any run without a reset or a change to monthly, the usage of such a quota never falls |
| `QuotaRuns.MonthlyQuotaRollsOverIff` | internal/quota/monitor.go:77-96 | a committed poll sets the usage of a monthly quota back exactly when its reading is of another calendar month than the reset time, year included; the usage is then what the poll adds |
| `QuotaRuns.NoSecondRolloverInAMonth` | internal/quota/monitor.go:76-81 | after a rollover, a reset or a change of period no poll of that month zeroes usage, unless one of these falls between the reading and the update of a poll of another month; a change of period keeps usage |
| `QuotaRuns.OldReadingZeroesAgainIff` | internal/quota/monitor.go:73-81 | a reset or a change of period over a reading under way is followed by a second zeroing in its month exactly when the reading is of another month |
| `QuotaRuns.PollsKeepResetTimeCurrent` | internal/quota/monitor.go:128-130 | a poll of a monthly quota leaves the reset time in the month of its reading |
| `SplitSet.PollBetweenIsHarmlessIff` | internal/quota/store.go:90-113 | a poll between the read and the write of `Set` is harmless exactly when the write does not take back a rollover's reset time or the latch |
| `SplitSet.PollBetweenFiresTwice` | internal/quota/store.go:102-113 | a poll in between that fired, under a setting that does not clear the latch, is followed by a second firing at the next poll of the month |
| `SplitSet.PollBetweenRollsOverTwice` | internal/quota/store.go:102-113 | a rollover in between, under an unchanged period, is followed by a second one in the same month |
| `SplitSet.PollBetweenClosesLatch` | internal/quota/store.go:102-113 | a rollover in between that opened the latch leaves it closed below the limit |
| `SplitSet.ResetBetweenIsHarmlessIff` | internal/quota/store.go:90-128 | a reset in between is harmless exactly when the write keeps or replaces its reset time and does not close the latch again |
| `SplitSet.ClosedLatchIsSilent` | internal/quota/monitor.go:97-101 | a closed latch keeps every poll of the month silent, whatever it reads |
| `SplitSet.ResetBetweenSilencesTheQuota` | internal/quota/store.go:102-128 | a reset of a triggered row in between, under a setting that does not clear the latch, leaves the row triggered with usage 0 below its limit, and no poll fires until a rollover or another clear |
| `SplitSet.ResetBetweenIsZeroedAgain` | internal/quota/store.go:102-128 | a reset in between whose time is taken back is followed by a rollover that a `Set` in one step would not have caused |
| `SplitSet.SetBetweenIsHarmlessIff` | internal/quota/store.go:90-113 | another `Set` in between is harmless exactly when its change of period is kept and the latch opens just when both in a row would open it |
| `Incus.Server.UpdateInstance` | internal/api/handler/bandwidth.go:141-145 | an accepted update replaces the instance's own devices, a refused one nothing |
| `Bandwidth.PickPrimaryNic` | internal/api/handler/bandwidth.go:36-48 | eth0 if it is a NIC, else some NIC, else none |
| `Bandwidth.PrimaryNicIsANic` | internal/api/handler/bandwidth.go:36-48 | eth0 is picked whenever it is a NIC, what is picked is a NIC, and nothing is picked exactly when there is none |
| `Bandwidth.DevicesEqualIff` | internal/api/handler/bandwidth.go:23-33 | the comparison is equality exactly when no empty key of the left device is missing on the right |
| `Bandwidth.PutBandwidth` | internal/api/handler/bandwidth.go:75-155 | which requests are refused and how, and the devices an accepted one leaves |
| `Bandwidth.RequestIsValidIff` | internal/api/handler/bandwidth.go:83-98 | a request is valid exactly when each limit, trimmed, is empty, or a rate, or for the priority one digit from 0 to 7 |
| `Bandwidth.RateIff` | internal/api/handler/bandwidth.go:20-21 | rates are exactly a numeral, a fraction or none, ASCII blanks or none, and bit, kbit, Mbit, Gbit or Tbit |
| `Bandwidth.AcceptedRequestByKey` | internal/api/handler/bandwidth.go:116-144 | unless it drops an override, a request leaves the effective NIC with limits.ingress, limits.egress and limits.priority as asked for and every other key as it was |
| `Bandwidth.GetBandwidth` | internal/api/handler/bandwidth.go:50-71 | shows the primary NIC's own limits, not inherited ones |
| `Bandwidth.ShownByKey` | internal/api/handler/bandwidth.go:61-69 | each limit is shown from its own key of the instance's own device |
| `Bandwidth.RequestChangesOnlyLimitsIff` | internal/api/handler/bandwidth.go:116-144 | the effective NIC changes in its limits only exactly when the request drops no override or the profile's device is the same but for limits; it then has the limits asked for; other devices stay |
| `Bandwidth.GetAfterPutIff` | internal/api/handler/bandwidth.go:57-71 | after a request for the primary NIC that NIC is shown with the trimmed request's limits exactly when no override is dropped or the profile has a NIC of that name |
| `Bandwidth.GetAfterPutFollowsChoice` | internal/api/handler/bandwidth.go:36-48 | with several NICs to choose from, exactly when reading picks the NIC written |
| `Bandwidth.ClearingLimitsCanRemoveTheNic` | internal/api/handler/bandwidth.go:136-144 | an empty request removes a NIC that only the instance defines and that has no limits |
| `Bandwidth.RequestForUnknownNic` | internal/api/handler/bandwidth.go:101-144 | a request for a device that does not exist changes nothing, or creates a device of limits alone, without a type |
| `PlanLimits.PlanRateIsValid` | internal/api/handler/handler.go:418-418 | the limit a plan sets is one that the bandwidth handler accepts |
| `PlanLimits.SshProxyIsListed` | internal/api/handler/handler.go:423-433 | the SSH proxy is listed as a tcp rule from its host port to port 22, beside the rules already there |
| `PlanLimits.ApplyBandwidthFromPlan` | internal/api/handler/handler.go:393-455 | both limits on the primary NIC, the SSH proxy if it is missing, a start, each under its condition |
| `PlanLimits.AppliedPlanGivesBandwidth` | internal/api/handler/handler.go:408-422 | a plan of n Mbit/s sets both limits of the effective NIC to rates that stand for n million bits per second and keeps its other keys; without a bandwidth nothing changes |
| `PlanLimits.AppliedPlanAddsSshProxy` | internal/api/handler/handler.go:423-433 | beside the NIC only the SSH proxy changes: it is added exactly for an instance that starts by itself, has a first port and no device of that name, from that port to the guest's port 22 |
| `PlanLimits.SpawnTask` | internal/api/handler/handler.go:469-494 | a task is spawned exactly for a planned, reachable instance whose picked NIC misses a limit, however many NICs there are |
| `PlanLimits.ReconcilePlanLimits` | internal/api/handler/handler.go:460-497 | whatever the order of scan and tasks, the pass ends with exactly the due instances repaired whose update the server accepts |
| `PlanLimits.ReconciledLimitsPlannedInstances` | internal/api/handler/handler.go:483-494 | planned instances with a NIC and a plan bandwidth have both limits unless refused; no other effective device or key changes; instances that had both stay |
| `PlanLimits.PassGivesPlanBandwidth` | internal/api/handler/handler.go:468-494 | a registered instance whose plan is found and whose NIC lacks one of the two limits gets both, at the plan's bandwidth in bits per second, unless refused; no other device or key changes |
| `PlanLimits.PassLeavesOthers` | internal/api/handler/handler.go:468-492 | an instance that is not registered, has no plan or an unknown one, has no NIC, has both limits, or is refused stays as it is |
| `PlanLimits.ReconcileConverges` | internal/api/handler/handler.go:457-459 | a later pass finishes exactly what refusals left over, and after a complete pass changes nothing |
| `Proxy.RuleRoundTrip` | internal/api/handler/proxy.go:21-41 | a written rule reads back with its name and ports, and with its protocol exactly when that holds no colon |
| `Proxy.EndpointsAreReadIff` | internal/api/handler/proxy.go:25-40 | endpoints protocol:anything:number are read exactly when both numbers fit 64 bits, as the listen side's protocol and the two numbers |
| `Proxy.ShortEndpointsAreNotRead` | internal/api/handler/proxy.go:27-29 | an endpoint with fewer than two colons gives no rule |
| `Proxy.DeviceNameInjective` | internal/api/handler/proxy.go:105-105 | device names tell host ports apart |
| `Proxy.RulesWithout` | internal/api/handler/proxy.go:128-129 | without a device, every rule but that device's is listed |
| `Proxy.ListProxyRules` | internal/api/handler/proxy.go:43-60 | lists every readable proxy device once |
| `Proxy.ListedIff` | internal/api/handler/proxy.go:51-58 | what is listed: the devices of type proxy, under their own names, whose endpoints can be read |
| `Proxy.AddProxyRule` | internal/api/handler/proxy.go:62-117 | which requests are refused and how; an accepted one writes one device |
| `Proxy.MayClaimIff` | internal/api/handler/proxy.go:82-94 | an administrator may claim any port, an owner exactly those of the instance's range, and none without a range |
| `Proxy.RuleIsWritten` | internal/api/handler/proxy.go:105-110 | an accepted rule is the one device proxy-N, from all host addresses to the guest's own, both in the protocol asked for, or tcp |
| `Proxy.DeleteProxyRule` | internal/api/handler/proxy.go:119-137 | removes one device |
| `Proxy.ListingFollowsAdd` | internal/api/handler/proxy.go:73-110 | listing after an add shows the new rule, with the protocol asked for, or tcp, if that holds no colon, and keeps the rules under other names |
| `HostPorts.DeviceUpdatesAreSteps` | internal/api/handler/proxy.go:101-111 | every rule that passes the check, every deletion of a device, every request for limits and every plan applied is a step, with the devices the handlers write |
| `HostPorts.SnapshotRequestsAreSteps` | internal/api/handler/handler.go:752-797 | so are taking, deleting and restoring snapshots, with the devices of the snapshot's moment |
| `HostPorts.DeletionsAreSteps` | internal/api/handler/handler.go:499-508 | so are deletion requests at any time, the removal of the row before or after Incus is done, a deletion that fails, and the deletion of a user |
| `HostPorts.RuleKeepsOwnPortsIff` | internal/api/handler/proxy.go:83-110 | a written rule leaves an instance on its own ports exactly when its host port is in the range and the remaining devices are |
| `HostPorts.UpdateKeepsOwnPorts` | internal/api/handler/bandwidth.go:116-144 | bandwidth requests and plan limits, for any device name, add no claim |
| `HostPorts.StepKeepsSound` | internal/api/handler/handler.go:351-386 | every step of the code keeps the registry safe and pending SSH tasks on ports of the pool |
| `HostPorts.StepKeepsExclusiveIff` | internal/api/handler/handler.go:351-508 | from an exclusive world a step of the code leads to an exclusive one exactly when it is harmless: a row goes only if its instance is gone or forwards no port, a proxy device that is new or restored listens in the instance's present range |
| `HostPorts.InTimeIsHarmless` | internal/api/handler/proxy.go:83-94 | a completed deletion, a current row and a live registration make a step harmless, as long as snapshots hold own ports: the owner's range check suffices |
| `HostPorts.InTimeKeepsSnapshotsOwn` | internal/api/handler/handler.go:780-797 | and they keep every snapshot on ports of its own instance, so that a restore needs no condition |
| `HostPorts.RunIsExclusiveIff` | internal/api/handler/handler.go:351-508 | over every run of the code, restores of snapshots included, exclusivity holds up to a step exactly when all steps before it are harmless |
| `HostPorts.NoHostPortIsClaimedTwice` | internal/api/handler/proxy.go:83-110 | over every run of steps taken in time, restores of snapshots included, each proxy device listens on a port of its own instance's range, and no two devices anywhere listen on the same port |
| `HostPorts.RowDeletionKeepsExclusiveIff` | internal/api/handler/handler.go:499-508 | the delete handler's row removal keeps exclusivity exactly when the instance is gone from Incus or forwards no port |
| `HostPorts.DeletionLetsAPortBeClaimedTwice` | internal/api/handler/handler.go:499-508 | in every pool with room, for any two creations, a run in which the first instance is deleted and, while the operation runs or after it failed, the second listens on its port |
| `HostPorts.UserDeletionKeepsExclusiveIff` | internal/api/handler/users.go:51-67 | deleting a user keeps exclusivity exactly when none of the user's live instances forwards a port |
| `HostPorts.UserDeletionLetsAPortBeClaimedTwice` | internal/users/repo.go:123-126 | in every pool with room, for any two creations by different users, a run in which the first user is deleted and the second instance listens on a port of the first |
| `Migrations.Database.Migrate` | internal/db/db.go:57-113 | a run applies the first pending files in ascending order of their names up to the first request that fails, be it the table, a version lookup or a transaction, and succeeds exactly when every request does |
| `Migrations.SqlFilesIff` | internal/db/db.go:72-76 | the files are exactly the entries that are no directories and end in .sql |
| `Migrations.SortedAscends` | internal/db/db.go:77-77 | they are sorted ascending, character by character, with none lost or doubled |
| `Migrations.VersionIsPrefix` | internal/db/db.go:80-80 | a version is what stands before the first underscore, or the whole name |
| `Migrations.PendingIff` | internal/db/db.go:79-89 | what is pending: the files whose version is neither recorded nor that of a file before them |
| `Migrations.NewerFilesSortBehind` | internal/db/db.go:71-77 | adding files that sort behind the old ones keeps the old list as the front |
| `Migrations.PendingAfterPrefix` | internal/db/db.go:79-89 | with distinct versions, what is pending after the first k files is exactly the rest |
| `Migrations.MigrateExtendsTheFront` | internal/db/db.go:79-111 | a run leaves a longer front of the list with matching versions, and a successful one all of its files |
| `Migrations.FirstRunAppliesAllIff` | internal/db/db.go:80-89 | a successful first run applies every file exactly when versions are distinct |
| `Migrations.StepKeepsConsistent` | internal/db/db.go:79-111 | every step of every overlapping runner keeps the log a front of the list |
| `Migrations.MigrateIsAPath` | internal/db/db.go:79-111 | a call of `Migrate` is a path of one runner's steps with nothing in between, up to the end of its list if it succeeds |
| `Migrations.RunnersNeverWait` | internal/db/db.go:79-111 | a runner starts, looks, applies, rolls back over a version recorded since, and stops without waiting for any other |
| `Migrations.MigrationsApplyOnceInOrder` | internal/db/db.go:67-111 | over any starts, failures, crashes and overlaps, committed bodies are a front of the sorted list, once each, with matching versions; a finished runner leaves its whole list applied |
| `Migrations.CommittedBodiesAscend` | internal/db/db.go:71-111 | over the sorted .sql entries, the bodies committed in any such run are of .sql files and ascend by name |
| `SshKeys.Store.Add` | internal/sshkeys/store.go:48-58 | appends the key, in memory even if it cannot be saved, or nothing if there is no random id |
| `SshKeys.Store.Delete` | internal/sshkeys/store.go:60-70 | removes the first key with the id |
| `SshKeys.Store.GetByIDs` | internal/sshkeys/store.go:72-86 | the selected keys in store order, whatever the order and repeats of the ids asked for |
| `SshKeys.SelectedIff` | internal/sshkeys/store.go:75-84 | a key is in the answer, as often as it is stored, exactly when it is stored and its id is asked for |
| `SshKeys.SelectionAfterDelete` | internal/sshkeys/store.go:60-86 | with distinct ids, deleting a key is the same as never asking for it |
| `SshKeys.SelectionAfterAdd` | internal/sshkeys/store.go:48-86 | an added key comes last, exactly if its id is asked for |
| `SshKeys.AddSSHKey` | internal/api/handler/sshkeys.go:18-39 | stores trimmed name and key, and refuses empty ones |
| `SshKeys.PutInstanceSSHKeys` | internal/api/handler/sshkeys.go:79-119 | overwrites the file with one line for each selected key |
| `SshKeys.ContentByLine` | internal/api/handler/sshkeys.go:89-96 | the file of no keys is empty, and each key adds its trimmed text and a line feed |
| `SshKeys.GetInstanceSSHKeys` | internal/api/handler/sshkeys.go:51-76 | reads the trimmed lines that are neither empty nor comments, and answers an error if reading fails midway |
| `SshKeys.ReadKeysIff` | internal/api/handler/sshkeys.go:68-74 | the keys read are exactly the trimmed lines that are neither empty nor start with # |
| `SshKeys.ReadAfterWriteIff` | internal/api/handler/sshkeys.go:68-96 | what is read back is the trimmed keys, one for one, exactly when each is one line that is not empty and not a comment |
| `SshKeys.StoredKeyIsPlainIff` | internal/api/handler/sshkeys.go:27-32 | for keys that were let in, that means no inner line break and no leading # |
| `Names.IdRoundTrip` | internal/types/id.go:12-31 | every 64-bit identifier survives marshalling and unmarshalling, quoted or bare |
| `Names.IdText` | internal/types/id.go:12-31 | an identifier is written as its decimal number in double quotes; text without them is read as a 64-bit number |
| `Names.StrippingInvertsPrefixing` | internal/instances/repo.go:58-62 | stripping recovers the display name |
| `Names.OtherNamesStay` | internal/instances/repo.go:58-62 | a name without the owner's prefix is shown as it is |
| `Names.PrefixedNameInjective` | internal/instances/repo.go:53-56 | no two (owner, display name) pairs share a name |
| `Names.PrefixedNameText` | internal/instances/repo.go:53-56 | a name is u, the owner's number, a dash and the display name |

The browser's inverse, web/src/lib/instance.ts:5-11, is the second half of `Names.StrippingInvertsPrefixing`: it shows
the display name exactly to a signed-in owner who is not an administrator.

## Left out

- Quota.PollRow: does not model 64-bit wrap-around of byte counts, which would take eight exabytes of traffic.
- QuotaRuns.RunsAreSound: a run is one life of a quota row; a row that is deleted and created again starts a new run.
- QuotaRuns.ActionFiresOncePerClear: firing means the call of `executeAction`; whether Incus then stops or freezes the instance is not modelled.
- Registry.Repo.Create: identifiers, timestamps and the CPU, memory and image columns, which nothing modelled reads; and failures of the database before the commit other than the ones the code tests for, which appear as rollbacks in the step machine.
- Names.IdRoundTrip: the decoding of JSON escapes, which is a parameter known only on plain strings.
- PlanLimits.ReconcilePlanLimits: instances that come or go during the pass; the count that is only logged.
- SshKeys.Store.Add: the JSON file behind the store, whose failure is a parameter.
- The monitor's ticker and its loop over all quotas: a run is a sequence of polls of one quota.
- Strings are sequences of code points; invalid UTF-8 is not modelled.
- The creation handler as one method: its Incus call, its registration and its background task are separate steps of `HostPorts`.
- HTTP decoding and encoding, routing, tokens, passwords and the ownership check in front of the handlers.
- The defaults and checks of the quota handler before `Set`, and plans, images and users beyond what is named above.
- Console, files, the files in snapshots, images, networks and storage pools, which pass requests through to Incus.
- The web pages, formatting of byte counts, installation and build scripts, and `parseMemoryMB`, which nothing calls.

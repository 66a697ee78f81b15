# Twinkly node server: a Dafny model

This project models the Twinkly node server for the Polyglot v3 host
framework (`twinkly_poly.py`). It has two node kinds:

- **Controller.** It holds the configured `host` parameter, a comma-separated
  list of device hosts. DISCOVER adds one light node for each host whose
  address is not registered yet. The short poll refreshes every light. The
  long poll sends a DON/DOF heartbeat.
- **TwinklyLight.** It caches two driver values, ST (100 on, 0 off) and GV1
  (brightness). It refreshes them from its device and writes a command's
  value through to them once the device call succeeds.

The modules follow the program's structure:

- `Strings` (`strings.dfy`) holds the Python string operations the plugin
  relies on:
  - `str.split(',')`;
  - `str.replace('.', '')`;
  - `str(n)`, with its inverse `int(s)`;
  - the substring test `'shortPoll' in polltype`.
- `Identity` (`identity.dfy`) holds how a host at a 1-based ordinal gets its
  label `"t_" + host-without-dots + "_" + ordinal` and its address
  `str(hash(label) % 10^8)`. It also holds `Plan`, the value-level description
  of the lights one discovery run adds.
- `Light` (`light.dfy`) holds the driver cache as pure functions (`Synced`,
  `Switched`, `Dimmed`) and the class `TwinklyLight`, whose methods update the
  cache in place and are proved against those functions.
- `NodeRegistry` (`registry.dfy`) models the framework's node registry as
  seen by the controller. It has two parts:
  - a map `nodes` from address to light;
  - `order`, the addresses in the order they were added, which is the order
    `poly.nodes()` lists them in.

  It also has `Grown`, the state of the registry part-way through discovery.
- `Controller` (`controller.dfy`) holds the heartbeat as a function, with its
  alternation lemmas, and the class `Controller`, whose methods are the
  plugin's callbacks.

Things the model takes as parameters:

- **The hash.** MD5 of the UTF-8 label, read as an integer, becomes the
  function `hash: string -> nat` the controller is built with. The `% 10^8`
  reduction is written out.
- **Device answers.** Every call to a device is given as an `Outcome`: the
  value returned, or `Failure` when the client raised. The short poll takes
  each light's answers as `readings(address)`.
- **Reports to the host.** What the plugin reports (`reportCmd`,
  `reportDrivers`) is returned as a value.

Discovery is idempotent: `Controller.Controller.DiscoverTwice` runs
DISCOVER twice on the same host string. It ends in exactly the state one
DISCOVER gives, because the second run finds every address registered
(`Identity.PlanTwice`) and adds nothing (`NodeRegistry.ExtendedByNothing`).

An empty host string is not an empty host list. `"".split(',')` is `[""]`,
so DISCOVER sent while the host is empty registers one light labelled
`"t__1"` (`Strings.Split` gives one piece for the empty string). The
parameter handler itself never discovers on an empty host.

## Model

| member | source | states |
|---|---|---|
| Strings.Split | twinkly_poly.py:97 | splitting on commas gives one more piece than there are commas, and no piece contains a comma |
| Strings.JoinSplit | twinkly_poly.py:97 | joining the pieces with commas gives back the configured string |
| Strings.SplitJoin | twinkly_poly.py:97 | splitting a comma-join of comma-free pieces gives back exactly those pieces, empty ones included |
| Strings.RemoveAll | twinkly_poly.py:98 | removing the dots leaves no dot, shortens the host by its number of dots, leaves a dot-free host unchanged, and on one character gives "" for a dot and the character otherwise |
| Strings.RemoveAllConcat | twinkly_poly.py:98 | removal works piecewise on a concatenation, so with the one-character case it fixes the order and number of the kept characters |
| Strings.RemoveAllKeeps | twinkly_poly.py:98 | every character other than the dot stays in the host exactly when it was there |
| Strings.NatToString | twinkly_poly.py:98-99 | `str(n)` is a non-empty numeral with no leading zero unless it is "0" |
| Strings.StringToNatOfNatToString | twinkly_poly.py:99 | reading back `str(n)` gives `n` |
| Strings.NatToStringInjective | twinkly_poly.py:99 | different numbers have different numerals |
| Strings.NatToStringLength | twinkly_poly.py:99 | a number below 10^k has at most k digits |
| Strings.Contains | twinkly_poly.py:74 | the substring test fails for a pattern longer than the text and holds when the text starts with the pattern |
| Strings.ContainsAt | twinkly_poly.py:74 | the substring test holds exactly when the pattern occurs at some position |
| Identity.Label | twinkly_poly.py:98 | the label starts with "t_", contains no dot, and ends with "_" and the ordinal's numeral |
| Identity.Address | twinkly_poly.py:98-99 | the address is `str` of hash(label) mod 10^8: a numeral of 1 to 8 digits with no leading zero unless it is "0", whose value lies in [0, 10^8) |
| Identity.AddressesAgree | twinkly_poly.py:98-99 | two hosts get the same address exactly when their labels' hashes agree mod 10^8 |
| Identity.LabelInjective | twinkly_poly.py:98 | equal labels have the same ordinal and the same host once dots are removed |
| Identity.LabelsOfOrdinalsDiffer | twinkly_poly.py:96-102 | hosts at different ordinals of one list get different labels, whatever the hosts |
| Identity.LabelAtOrdinal | twinkly_poly.py:98 | at one ordinal two hosts get the same label exactly when they agree after removing dots |
| Identity.Entries | twinkly_poly.py:96-102 | one registration per host, and the host at 0-based position k is labelled and addressed with ordinal k + 1 |
| Identity.Plan | twinkly_poly.py:97-101 | discovery over n hosts adds at most n lights |
| Identity.PlanFresh | twinkly_poly.py:100-101 | discovery only adds addresses that were not registered, and never one address twice |
| Identity.PlanEntries | twinkly_poly.py:97-101 | every light discovery adds is the registration of one of the configured hosts |
| Identity.PlanCovers | twinkly_poly.py:97-101 | after discovery the address of every configured host is registered |
| Identity.PlanIdle | twinkly_poly.py:100 | when every address is already registered, discovery adds nothing |
| Identity.PlanTwice | twinkly_poly.py:95-102 | a second discovery over the same hosts after the first one adds nothing |
| Identity.PlanOnePerHost | twinkly_poly.py:97-101 | with pairwise distinct, unregistered addresses, discovery adds one light per host, in host order |
| NodeRegistry.RegistryKeys | twinkly_poly.py:100 | the registered addresses are exactly those listed in the registry's order |
| NodeRegistry.RegistryDistinct | twinkly_poly.py:76-78 | the registry lists each address once, each registered, and different addresses hold different lights |
| NodeRegistry.GrownStart | twinkly_poly.py:95-96 | discovery starts from the current registry with nothing added |
| NodeRegistry.GrownHolds | twinkly_poly.py:100 | during discovery an address is registered exactly when it was registered before or has been added |
| NodeRegistry.GrownAdd | twinkly_poly.py:100-101 | adding a new light for a new address keeps the old nodes, appends the address and keeps the registry well formed |
| NodeRegistry.GrownDone | twinkly_poly.py:95-102 | at the end of discovery the registry is well formed and extends the old one: the registered addresses are the old ones plus the added ones, old nodes keep their lights, and each added light was created for its registration |
| NodeRegistry.ExtendedByNothing | twinkly_poly.py:100 | a registry extended by no registration is the old registry, map and order |
| Controller.Controller.Discover | twinkly_poly.py:95-102 | the registry stays well formed: the lights of `Plan` are appended in order as fresh nodes holding the initial drivers, created under this controller with their own address, label and host; old nodes are untouched; no other address appears |
| Controller.Controller.DiscoverTwice | twinkly_poly.py:95-102 | two DISCOVERs with the same host string leave the registry exactly as one DISCOVER does |
| Controller.Controller.DiscoverHosts | twinkly_poly.py:96-102 | the loop over the hosts carries out the plan for all of them |
| Controller.Controller.DiscoverHost | twinkly_poly.py:97-102 | one pass computes the label and address of the host at ordinal i + 1 and extends the plan by it |
| Controller.Controller.Register | twinkly_poly.py:101 | adding a light appends its address and maps it to a fresh light with the initial drivers |
| Controller.Controller.ParameterHandler | twinkly_poly.py:51-65 | `host` becomes the parameter or "" when it is absent; an empty host shows exactly the one "cfg" notice and leaves the registry unchanged; otherwise the notices are cleared and discovery runs |
| Controller.Controller.Start | twinkly_poly.py:69-71 | ST becomes 0 and nothing else changes |
| Controller.Controller.Poll | twinkly_poly.py:73-80 | a poll type containing "shortPoll" sets ST to 1 and refreshes exactly the nodes with queryON set, each from its own device reading; any other poll type sends one heartbeat and leaves every driver value |
| Controller.Controller.Query | twinkly_poly.py:82-84 | one report per node, the controller first, then every light in registry order with its cached drivers; nothing changes |
| Controller.Controller.Heartbeat | twinkly_poly.py:86-93 | phase 0 reports DON and moves to 1; any other phase reports DOF and moves to 0 |
| Controller.Controller.constructor | twinkly_poly.py:36-42 | the controller starts named "Twinkly", not polled, with host "", phase 0, ST 1 (its declared driver default, line 112) and an empty registry |
| Controller.Beat | twinkly_poly.py:88-93 | one heartbeat from phase 0 reports DON and moves to 1; from any other phase it reports DOF and moves to 0 |
| Controller.PhaseAlternates | twinkly_poly.py:86-93 | from phase 0 or 1 the phase after n heartbeats is (n + phase) mod 2 |
| Controller.PulsesAlternate | twinkly_poly.py:86-93 | from phase 0 or 1 the k-th heartbeat reports DON exactly when k + phase is odd, otherwise DOF |
| Controller.HeartbeatFromStart | twinkly_poly.py:86-93 | from the initial phase the odd heartbeats report DON, the even ones DOF, and the phase after n beats is n mod 2 |
| Light.Synced | twinkly_poly.py:151-159 | a failed power read keeps both values; a successful one sets ST to 100 or 0; GV1 follows a successful brightness read and is kept otherwise |
| Light.SyncedForgetsPrior | twinkly_poly.py:151-159 | a refresh in which both reads succeed does not depend on the cached values |
| Light.SyncedIdempotent | twinkly_poly.py:151-159 | refreshing twice with the same answers equals refreshing once |
| Light.Switched | twinkly_poly.py:130-142 | a successful power command writes ST through (100 or 0) without re-reading; a failed one changes nothing; GV1 is untouched |
| Light.Dimmed | twinkly_poly.py:144-149 | a successful brightness command writes GV1 through as given, with no clamping; a failed conversion or call changes nothing; ST is untouched |
| Light.TwinklyLight.constructor | twinkly_poly.py:116-120 | a light records its controller, address, name and host, has queryON set and starts with ST 0 and GV1 0 |
| Light.TwinklyLight.Start | twinkly_poly.py:124-125 | the start callback is a refresh |
| Light.TwinklyLight.Query | twinkly_poly.py:127-128 | reports the cached drivers and changes nothing |
| Light.TwinklyLight.SetOn | twinkly_poly.py:130-135 | the cache becomes `Switched(old, on, outcome)` |
| Light.TwinklyLight.SetOff | twinkly_poly.py:137-142 | the cache becomes `Switched(old, off, outcome)` |
| Light.TwinklyLight.SetBrightness | twinkly_poly.py:144-149 | the cache becomes `Dimmed(old, conversion, outcome)` |
| Light.TwinklyLight.Update | twinkly_poly.py:151-159 | the cache becomes `Synced(old, reading)`, which can be a partial update |

## Left out

- The HTTP client and the asyncio calls (`_isOn`, `_getBri`, `_turnOn`, `_turnOff`, `_setBrightness`, lines 161-186) are left out. Network I/O is replaced by the `Outcome` of each call. A timeout or a bad status is a `Failure`.
- MD5 is left out. The model takes the hash as a parameter, so a collision between two labels is possible in the model, as in the code. The later host is then skipped, exactly as `Plan` says.
- `server.json`, `get_profile_info`, the `__main__` block, `delete`, the `subscribe`/`ready`/`addNode(self)` wiring and logging are left out. They are start-up and I/O with no effect on the modelled state.
- The controller's own registry entry is not in `nodes`. `poll` skips it because its queryON is false; the model puts it in the const `queryON` and iterates only the lights. `Query` reports the controller first, as it is added before any light.
- Controller.Controller.constructor requires an address that is not a decimal numeral. The program creates the controller at `controller` (line 204). Its own node sits in the registry that `getNode` (line 100) searches, so a numeral address equal to a light's address would make the code skip a light that the model adds.
- Controller.Controller.ParameterHandler: the exception handler of lines 66-67 is left out, because nothing in the model can raise (the hash is total and the registry calls are modelled as map updates). Its return value `False` is left out, because the framework ignores it.
- Light.TwinklyLight.SetBrightness: `int(command.get('value'))` is evaluated twice in the code. The model converts once and uses that value for both the device call and the cache. The command dictionary itself is not modelled.
- Driver units (uom) and the command tables (`commands`, `id`) are left out. They are declarations for the framework, not behaviour.
- Concurrency between framework callbacks is left out. Each callback is modelled as running alone.

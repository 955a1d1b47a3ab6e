# RedstoneLamp core, modelled in Dafny

This project models five sequential parts of the RedstoneLamp server.

- **The plugin lifecycle engine** (`PluginSystem`). The plugin loaders of every plugin manager form one registry. A loader is found by name, ignoring case. `initPlugin`, `enablePlugin` and `disablePlugin` drive a loader through UNLOADED, LOADED, INITIALIZED, ENABLED and DISABLED, recursing into its hard and soft dependencies. The batch drivers `loadPlugins`, `enablePlugins` and `disablePlugins` walk the registry in order.
- **The growable binary buffer** (`BinaryBuffer`). It offers big- and little-endian signed reads and writes, unsigned reads, strings with a two-byte length prefix, and a hex dump. `put` grows the buffer when the bytes do not fit.
- **The tick-countdown task** (`RegisteredTask`). It has a delay and a repeat interval and runs when its counter reaches zero.
- **Dotted-path configuration lookup** (`YamlConfig`) over nested maps.
- **The RakNet "open connection request 2" parser and "reply 2" writer** (`JoinPacket`).

Everything is modelled with immutable values and pure functions. Java exceptions become a `Result` whose error case names the exception. Java `null` becomes `Option`. Bytes are Java's signed bytes, as `int`s in [-128, 127]. Fixed-width integers carry explicit range predicates, and the `(short)` casts wrap explicitly (`Bytes.Narrow`).

## Files

- `java_lang.dfy`, `text.dfy`, `arith.dfy`, `bytes.dfy`: shared helpers.
  - `Option`, `Result` and the Java exceptions.
  - `equalsIgnoreCase`.
  - Euclidean-division facts.
  - Two's-complement encoding of n-byte integers in either byte order.
- `plugin_registry.dfy`: the registry and the lookups.
- `plugin_lifecycle.dfy`: the engine.
- `plugin_lifecycle_proofs.dfy`, `plugin_scenarios.dfy`: the engine's properties and worked registries.
- `binary_buffer.dfy`, `binary_buffer_proofs.dfy`: the buffer, and its round trips and findings.
- `registered_task.dfy`: the task.
- `yaml_config.dfy`, `yaml_config_proofs.dfy`: the configuration lookup.
- `join_packet.dfy`: the packet.

## How the lifecycle engine is modelled

The engine's state, `Lifecycle.Sys`, is the registry plus a trace of events:

- each loader callback fired (`Called(OnInit | OnEnable | OnDisable, loader)`);
- each warning logged (`Warned(kind, loader)`).

The loaders' own `initPlugin`, `enablePlugin` and `disablePlugin` are not part of this model. Each is recorded in the trace and assumed to leave its loader INITIALIZED, ENABLED or DISABLED (`Lifecycle.After`).

`dependsOn` and `softDependsOn` are not part of this model either. They are taken to mean "the name is in the loader's hard (soft) dependency list, ignoring case".

A transition ends in one of three ways:

- `Done`: it ran to its end;
- `Bailed`: it returned early after forcing the loader to LOADED or DISABLED;
- `OutOfFuel`: it exceeded the recursion depth given as `fuel`.

The fuel is needed because the source does not terminate on some graphs. `LifecycleProofs.InitCycleDiverges` shows one family of them. Take a loader whose FIRST hard dependency is itself, or two loaders that are each other's first hard dependency, none of them INITIALIZED or UNLOADED. Initializing either recurses without end, whatever the depth allowed. A cycle further down the list is not covered: a missing dependency before it, for instance, makes the loader bail first.

The engine does not guarantee "an ENABLED loader's hard dependencies are ENABLED", nor "an INITIALIZED loader's hard dependencies are INITIALIZED". Two scenarios show each property failing:

- `LifecycleScenarios.EnabledDespiteDisabledDependency`: a DISABLED hard dependency is neither refused nor re-enabled.
- `LifecycleScenarios.InitializedDespiteLoadedDependency`: a dependency whose own initialization failed stays LOADED while its dependent goes on to be initialized.

What each transition may do to states is stated instead, as the step predicates `InitStep`, `EnableStep` and `DisableStep`.

## Model

| member | source | states |
|---|---|---|
| Plugins.FindLoader | src/main/java/net/redstonelamp/plugin/PluginSystem.java:181-190 | `getPluginLoader` returns the first loader, in registry order, whose name equals the query ignoring case. No earlier loader matches. The result is null exactly when no loader matches. |
| Plugins.GetPluginManager | src/main/java/net/redstonelamp/plugin/PluginSystem.java:171-175 | The manager of the loader `getPluginLoader` finds, that is, of the first loader whose name matches. Null exactly when no loader matches. |
| Plugins.GetPlugin | src/main/java/net/redstonelamp/plugin/PluginSystem.java:196-205 | The plugin of the first loader whose name matches. Null exactly when none matches. |
| Lifecycle.InitPlugin | src/main/java/net/redstonelamp/plugin/PluginSystem.java:64-93 | On an INITIALIZED loader it changes nothing and fires nothing. Otherwise it ends INITIALIZED with its own init callback as the last event, or ends LOADED with a missing-dependency warning as the last event. Only states change, the trace only grows, and no loader that was INITIALIZED is moved. Every other loader that was UNLOADED stays UNLOADED, because the recursion never enters one. |
| Lifecycle.InitHard | src/main/java/net/redstonelamp/plugin/PluginSystem.java:69-79 | The hard-dependency loop: an absent or UNLOADED dependency forces the loader to LOADED with a warning. Only initialization steps happen. When the loop runs to its end, every UNLOADED loader is still UNLOADED. |
| Lifecycle.InitSoft | src/main/java/net/redstonelamp/plugin/PluginSystem.java:82-90 | The soft-dependency loop never aborts. Only initialization steps happen. |
| Lifecycle.EnablePlugin | src/main/java/net/redstonelamp/plugin/PluginSystem.java:98-147 | Unless the loader is INITIALIZED or DISABLED it changes nothing. Otherwise it ends ENABLED with its enable callback last, or DISABLED with a warning last. Only INITIALIZED or DISABLED loaders change, and they change to ENABLED or DISABLED. |
| Lifecycle.EnableHard | src/main/java/net/redstonelamp/plugin/PluginSystem.java:103-123 | The hard-dependency loop: any refusal forces DISABLED with a warning about this loader. Only enabling steps happen. |
| Lifecycle.EnableSoft | src/main/java/net/redstonelamp/plugin/PluginSystem.java:126-144 | The soft-dependency loop: when it stops early, the loader is DISABLED and the last event is a warning about it. Only enabling steps happen. Which soft dependencies cause the stop is stated by `LifecycleProofs.EnableStopsAtSoftRefused` and `LifecycleProofs.EnableBlockedBySoftRefused`. |
| Lifecycle.DisablePlugin | src/main/java/net/redstonelamp/plugin/PluginSystem.java:152-165 | Unless ENABLED it changes nothing. Otherwise the loader ends DISABLED with its callback last, and every loader that hard-depends on it is no longer ENABLED. Only ENABLED loaders change, and only to DISABLED. |
| Lifecycle.DisableDependents | src/main/java/net/redstonelamp/plugin/PluginSystem.java:155-162 | After the scan, no loader from the scan start on that hard-depends on the name is ENABLED. |
| Lifecycle.InitFrom | src/main/java/net/redstonelamp/plugin/PluginSystem.java:32-36 | Every loader visited ends INITIALIZED or LOADED, and settled loaders stay settled. |
| Lifecycle.LoadPlugins | src/main/java/net/redstonelamp/plugin/PluginSystem.java:29-37 | Afterwards every loader is INITIALIZED or LOADED. |
| Lifecycle.EnableFrom | src/main/java/net/redstonelamp/plugin/PluginSystem.java:43-47 | No loader visited is left INITIALIZED, and no other loader becomes INITIALIZED. |
| Lifecycle.EnablePlugins | src/main/java/net/redstonelamp/plugin/PluginSystem.java:41-48 | Afterwards no loader is INITIALIZED. |
| Lifecycle.DisableFrom | src/main/java/net/redstonelamp/plugin/PluginSystem.java:54-58 | No loader visited is left ENABLED, and no other loader becomes ENABLED. |
| Lifecycle.DisablePlugins | src/main/java/net/redstonelamp/plugin/PluginSystem.java:52-59 | Afterwards no loader is ENABLED. |
| LifecycleProofs.InitReady | src/main/java/net/redstonelamp/plugin/PluginSystem.java:64-93 | With every hard dependency INITIALIZED and every soft one absent, UNLOADED or INITIALIZED, initialization changes only this loader and fires its callback exactly once. |
| LifecycleProofs.InitStopsAtMissing | src/main/java/net/redstonelamp/plugin/PluginSystem.java:69-75 | Suppose every hard dependency before the first absent or UNLOADED one is already INITIALIZED, so nothing is recursed into. Then the result is exactly: this loader LOADED, plus one warning naming that dependency. No callback fires, and later dependencies make no difference. |
| LifecycleProofs.InitBlockedByMissing | src/main/java/net/redstonelamp/plugin/PluginSystem.java:69-79 | An absent or UNLOADED hard dependency anywhere in the list blocks initialization, whatever the recursion into earlier dependencies did. The loader's callback never fires, and if the call finishes the loader is LOADED. |
| LifecycleProofs.InitCycleDiverges | src/main/java/net/redstonelamp/plugin/PluginSystem.java:64-79 | Take a loader that is its own first hard dependency, or two loaders that are each other's, none INITIALIZED or UNLOADED. Initializing either never finishes, whatever the depth allowed. |
| LifecycleProofs.EnableReady | src/main/java/net/redstonelamp/plugin/PluginSystem.java:98-147 | Suppose every hard dependency is present, ENABLED or DISABLED, not the loader itself and not depending back on it, and soft dependencies raise no objection and are not INITIALIZED. Then enabling recurses nowhere and fires exactly this loader's callback. |
| LifecycleProofs.EnableStopsAtRefused | src/main/java/net/redstonelamp/plugin/PluginSystem.java:103-119 | Suppose every earlier hard dependency is present, ENABLED or DISABLED, and raises no objection, so nothing is recursed into. Stop at the first hard dependency that is absent, UNLOADED, LOADED, the loader itself ignoring case, or hard- or soft-depending on it. The result is exactly this loader DISABLED plus one warning of the matching kind (missing, self or mutual), and no callback fires. |
| LifecycleProofs.EnableBlockedByRefused | src/main/java/net/redstonelamp/plugin/PluginSystem.java:103-123 | A refused hard dependency anywhere in the list blocks enabling, whatever the recursion into earlier dependencies did. The loader's callback never fires, and if the call finishes the loader is DISABLED. |
| LifecycleProofs.EnableStopsAtSoftRefused | src/main/java/net/redstonelamp/plugin/PluginSystem.java:126-140 | Suppose the hard dependencies and the earlier soft ones need no recursion and raise no objection. A soft dependency that is present and is the loader itself ignoring case, or hard- or soft-depends on it, gives exactly: this loader DISABLED plus one soft-self or soft-mutual warning. No callback fires. |
| LifecycleProofs.EnableBlockedBySoftRefused | src/main/java/net/redstonelamp/plugin/PluginSystem.java:126-146 | Such a soft dependency anywhere in the list blocks enabling, whatever the recursion into the hard and earlier soft dependencies did. If the call finishes the loader is DISABLED. |
| LifecycleProofs.EnableSelfDependency | src/main/java/net/redstonelamp/plugin/PluginSystem.java:110-114 | A loader listing its own name, in any case, among its hard dependencies is never enabled. It ends DISABLED, or the recursion does not end. |
| LifecycleProofs.DisableLeaf | src/main/java/net/redstonelamp/plugin/PluginSystem.java:152-165 | Disabling a loader that nothing ENABLED depends on fires only its own disable callback. |
| LifecycleScenarios.LoadAddonCore | src/main/java/net/redstonelamp/plugin/PluginSystem.java:29-37 | Addon needs "core" and Core is registered after it. Loading initializes Core first, from inside Addon's initialization, then Addon. |
| LifecycleScenarios.EnableAddonCore | src/main/java/net/redstonelamp/plugin/PluginSystem.java:41-48 | The same pair is enabled Core first, then Addon, and both end ENABLED. |
| LifecycleScenarios.DisableCascade | src/main/java/net/redstonelamp/plugin/PluginSystem.java:152-165 | Disabling Core disables its dependent Addon before Core's own callback fires. |
| LifecycleScenarios.LoadMissingDependency | src/main/java/net/redstonelamp/plugin/PluginSystem.java:69-75 | A loader whose hard dependency is absent stays LOADED with one missing-dependency warning. |
| LifecycleScenarios.AbsentSoftDependency | src/main/java/net/redstonelamp/plugin/PluginSystem.java:82-146 | An absent soft dependency blocks neither initialization nor enabling, and logs nothing. |
| LifecycleScenarios.EnableMutualDependency | src/main/java/net/redstonelamp/plugin/PluginSystem.java:115-119 | Two loaders that hard-depend on each other both end DISABLED, each with a mutual-dependency warning. |
| LifecycleScenarios.EnabledDespiteDisabledDependency | src/main/java/net/redstonelamp/plugin/PluginSystem.java:103-123 | A loader becomes ENABLED while its hard dependency stays DISABLED. |
| LifecycleScenarios.InitializedDespiteLoadedDependency | src/main/java/net/redstonelamp/plugin/PluginSystem.java:69-92 | A loader becomes INITIALIZED although its hard dependency's own initialization failed and left it LOADED. |
| Buffers.WrapBytes | src/main/java/net/redstonelamp/nio/BinaryBuffer.java:44-49 | The buffer holds exactly the given bytes, at position 0, in the requested order. |
| Buffers.NewInstance | src/main/java/net/redstonelamp/nio/BinaryBuffer.java:59-64 | A negative size throws IllegalArgument. Otherwise the result is that many zero bytes, at position 0, in the requested order. |
| Buffers.Get | src/main/java/net/redstonelamp/nio/BinaryBuffer.java:72-76 | A negative length throws NegativeArraySize, and more than remain throws BufferUnderflow. Otherwise the result is the len bytes at the position, and the position advances by len. |
| Buffers.Put | src/main/java/net/redstonelamp/nio/BinaryBuffer.java:82-92 | Never fails, and the bytes just before the new position are the bytes put. If they fit: written in place, everything else unchanged. If not: capacity becomes old + n, the whole old array is kept as a prefix, the position is at the end, and the order becomes big-endian. |
| Buffers.SetPosition | src/main/java/net/redstonelamp/nio/BinaryBuffer.java:196-198 | Succeeds exactly for positions within the array, and throws IllegalArgument otherwise. |
| Buffers.Skip | src/main/java/net/redstonelamp/nio/BinaryBuffer.java:228-230 | Succeeds exactly when the new position is within the array, and otherwise throws IllegalArgument. |
| Buffers.GetSigned | src/main/java/net/redstonelamp/nio/BinaryBuffer.java:98-140 | Fails with BufferUnderflow exactly when fewer than n bytes remain. Otherwise it returns the n-byte signed value that encodes, in the buffer's order, to the bytes at the position. |
| Buffers.GetByte | src/main/java/net/redstonelamp/nio/BinaryBuffer.java:98-100 | The signed byte at the position, if one remains. The position advances by one, and data and order are unchanged. |
| Buffers.GetShort | src/main/java/net/redstonelamp/nio/BinaryBuffer.java:114-116 | A value in [-32768, 32767] whose 2-byte encoding in the buffer's order is the bytes read. The position advances by two, and nothing else changes. |
| Buffers.GetInt | src/main/java/net/redstonelamp/nio/BinaryBuffer.java:130-132 | A 32-bit value whose 4-byte encoding is the bytes read. The position advances by four, and nothing else changes. |
| Buffers.GetLong | src/main/java/net/redstonelamp/nio/BinaryBuffer.java:138-140 | A 64-bit value whose 8-byte encoding is the bytes read. The position advances by eight, and nothing else changes. |
| Buffers.GetUnsignedByte | src/main/java/net/redstonelamp/nio/BinaryBuffer.java:106-108 | A value in [0, 255]: the unsigned reading of the byte. With no byte left it throws BufferUnderflow. |
| Buffers.GetUnsignedShort | src/main/java/net/redstonelamp/nio/BinaryBuffer.java:122-124 | A value in [0, 65535]: the unsigned reading of the two bytes in the buffer's order. With fewer than two bytes left it throws BufferUnderflow. |
| Buffers.PutSigned | src/main/java/net/redstonelamp/nio/BinaryBuffer.java:154-164 | The n bytes before the new position are the value's encoding in the buffer's order at the time of the call. |
| Buffers.PutByte | src/main/java/net/redstonelamp/nio/BinaryBuffer.java:150-152 | The byte just before the new position is the byte put. |
| Buffers.PutShort | src/main/java/net/redstonelamp/nio/BinaryBuffer.java:154-156 | The two bytes before the new position encode the short. |
| Buffers.PutInt | src/main/java/net/redstonelamp/nio/BinaryBuffer.java:158-160 | The four bytes before the new position encode the int. |
| Buffers.PutLong | src/main/java/net/redstonelamp/nio/BinaryBuffer.java:162-164 | The eight bytes before the new position encode the long. |
| Buffers.GetString | src/main/java/net/redstonelamp/nio/BinaryBuffer.java:146-148 | Succeeds exactly when a 2-byte length and that many further bytes remain, and otherwise throws BufferUnderflow. It returns those bytes and moves past them. |
| Buffers.PutString | src/main/java/net/redstonelamp/nio/BinaryBuffer.java:166-169 | The string's bytes always end at the new position. When the prefix and the bytes both fit from the position, or the position was at the end, the prefix is the length cast to `short` in the buffer's order at the old position, the bytes follow it, and the new position is right after them. |
| Buffers.HexByte | src/main/java/net/redstonelamp/nio/BinaryBuffer.java:179 | `%02X` plus a space: two upper-case hex digits whose value is the byte read unsigned, then a space. |
| Buffers.HexDump | src/main/java/net/redstonelamp/nio/BinaryBuffer.java:175-182 | Three characters per byte: the two upper-case hex digits of its unsigned value, then a space. |
| Buffers.SingleLineHexDump | src/main/java/net/redstonelamp/nio/BinaryBuffer.java:175-182 | Dumps the whole backing array, whatever the position. |
| Bytes.Narrow | src/main/java/net/redstonelamp/nio/BinaryBuffer.java:166-169 | The `(short)` cast: the result fits the width, equals the input modulo 2^(8n), and is the input itself when that already fits. |
| Bytes.UnsignedIsSignedModulo | src/main/java/net/redstonelamp/nio/BinaryBuffer.java:122-124 | Masking with `0xFFFF` gives the signed reading taken modulo 2^16, for any width and order. |
| BufferProofs.WrapThenGetAll | src/main/java/net/redstonelamp/nio/BinaryBuffer.java:44-76 | Reading everything from a freshly wrapped array returns exactly that array. |
| BufferProofs.PutSignedReadBack | src/main/java/net/redstonelamp/nio/BinaryBuffer.java:154-164 | A value written with `putShort`, `putInt` or `putLong` reads back from where it was written, in the order the buffer had when writing. |
| BufferProofs.PutSignedReadBackInPlace | src/main/java/net/redstonelamp/nio/BinaryBuffer.java:154-164 | When the value fits, the order is kept, and `setPosition` back plus a read returns the value. |
| BufferProofs.UnsignedByteIsSignedModulo | src/main/java/net/redstonelamp/nio/BinaryBuffer.java:98-108 | `getUnsignedByte` succeeds exactly when `getByte` does, and equals it modulo 256. |
| BufferProofs.UnsignedShortIsSignedModulo | src/main/java/net/redstonelamp/nio/BinaryBuffer.java:114-124 | `getUnsignedShort` succeeds exactly when `getShort` does, and equals it modulo 65536. |
| BufferProofs.PutStringGetString | src/main/java/net/redstonelamp/nio/BinaryBuffer.java:142-169 | Covers strings shorter than 65536 bytes written in place or at the end of the buffer. Reading in the byte order the buffer had BEFORE the write, `getString` from where `putString` began returns the string and stops where the write stopped. A little-endian buffer written at its end is big-endian afterwards, so this read is not what `setPosition` plus `getString` does there. |
| BufferProofs.PutStringGetStringInPlace | src/main/java/net/redstonelamp/nio/BinaryBuffer.java:142-169 | On the buffer the write produced, `setPosition` back and `getString` return the string and end where the write ended. This holds for strings shorter than 65536 bytes that fit in place, or are written at the end of a big-endian buffer. The order is unchanged in both cases. |
| BufferProofs.PutStringAtEndTurnsBigEndian | src/main/java/net/redstonelamp/nio/BinaryBuffer.java:85-91 | As written: `putString("abc")` on an empty little-endian buffer leaves 03 00 61 62 63 in a big-endian buffer. `setPosition(0)` then `getString` reads the length as 768 and throws BufferUnderflow. |
| BufferProofs.PutStringLosesBytesOnGrowth | src/main/java/net/redstonelamp/nio/BinaryBuffer.java:85-91 | As written: `putString("abc")` on a fresh 4-byte buffer reads back as 00 00 61. |
| BufferProofs.GrowthResetsOrder | src/main/java/net/redstonelamp/nio/BinaryBuffer.java:85-91 | As written: after growing, a little-endian buffer writes big-endian. The second of two `putShort(1)` reads back little-endian as 256. |
| BufferProofs.PutIntended | src/main/java/net/redstonelamp/nio/BinaryBuffer.java:78-92 | Corrected `put`: the bytes land at the position, everything before it and after the written span is kept, the buffer grows only as far as needed, and the order is kept. |
| BufferProofs.PutIntendedReadBack | src/main/java/net/redstonelamp/nio/BinaryBuffer.java:154-164 | With the corrected `put`, every written short, int or long reads back in the buffer's own order, grown or not. |
| BufferProofs.PutStringGetStringIntended | src/main/java/net/redstonelamp/nio/BinaryBuffer.java:142-169 | With the corrected `put`, every string shorter than 65536 bytes round-trips from any position. |
| BufferProofs.HexDumpRoundTrip | src/main/java/net/redstonelamp/nio/BinaryBuffer.java:175-182 | The dump can be parsed back into exactly the bytes dumped. |
| Ticker.Delay | src/main/java/net/redstonelamp/ticker/RegisteredTask.java:13-15 | `delay(d)` starts with d ticks left and no repeat. |
| Ticker.Repeat | src/main/java/net/redstonelamp/ticker/RegisteredTask.java:16-18 | `repeat(r)` starts with 1 tick left and interval r. |
| Ticker.DelayAndRepeat | src/main/java/net/redstonelamp/ticker/RegisteredTask.java:19-26 | Starts with d ticks left and interval r. |
| Ticker.Check | src/main/java/net/redstonelamp/ticker/RegisteredTask.java:34-41 | The task runs exactly when the counter was 1, that is, when it has just reached 0. After a run the counter equals the repeat interval; otherwise it dropped by one. |
| Ticker.StopRepeating | src/main/java/net/redstonelamp/ticker/RegisteredTask.java:48-50 | The counter becomes -1 and the interval is kept. |
| Ticker.Run | src/main/java/net/redstonelamp/ticker/RegisteredTask.java:34-41 | Checking once per tick ends in the same state as n single checks, and runs on at most that many ticks. |
| Ticker.NonPositiveNeverRuns | src/main/java/net/redstonelamp/ticker/RegisteredTask.java:34-41 | A counter at or below zero only decreases, and the task never runs. |
| Ticker.NonPositiveDelayNeverRuns | src/main/java/net/redstonelamp/ticker/RegisteredTask.java:19-41 | A delay of at most 0 means the task never runs. |
| Ticker.StoppedNeverRuns | src/main/java/net/redstonelamp/ticker/RegisteredTask.java:48-50 | After `stopRepeating` no later check runs the task. |
| Ticker.NoRepeatRunsAtMostOnce | src/main/java/net/redstonelamp/ticker/RegisteredTask.java:36-39 | With interval 0 the task runs on at most one check. |
| Ticker.AfterAdds | src/main/java/net/redstonelamp/ticker/RegisteredTask.java:34-41 | m checks then n checks equal m + n checks. |
| Ticker.Schedule | src/main/java/net/redstonelamp/ticker/RegisteredTask.java:19-41 | With delay d >= 1 and interval r >= 1, the task runs on check k exactly when k >= d and k - d is a multiple of r. |
| Ticker.DelayRunsOnce | src/main/java/net/redstonelamp/ticker/RegisteredTask.java:13-41 | `delay(d)` with d >= 1 runs on the d-th check and on no other. |
| Ticker.RepeatSchedule | src/main/java/net/redstonelamp/ticker/RegisteredTask.java:16-41 | `repeat(r)` runs on the first check and then every r checks. |
| Ticker.RunReportsRuns | src/main/java/net/redstonelamp/ticker/RegisteredTask.java:34-41 | The ticks reported as run are exactly those of the checks on which the task runs, in order. |
| Config.Lookup | src/main/java/net/redstonelamp/config/YamlConfig.java:72 | `map.get(key)`: the key's value, or null when it is absent. |
| Config.GetMapInMap | src/main/java/net/redstonelamp/config/YamlConfig.java:59-61 | A null map throws NullPointer, and a non-map value throws ClassCast. Otherwise the result is the nested map, or null when the key is absent. |
| Config.SplitAll | src/main/java/net/redstonelamp/config/YamlConfig.java:74 | Splitting on '.' yields dot-free pieces, exactly one when the path has no dot. |
| Config.DropTrailingEmpty | src/main/java/net/redstonelamp/config/YamlConfig.java:74 | `String.split` drops trailing empty pieces: the result is a prefix ending in a non-empty piece, and only empty pieces are dropped. |
| Config.JavaSplit | src/main/java/net/redstonelamp/config/YamlConfig.java:71-74 | `split` on a quoted ".": the dot-separated pieces, in order, with only trailing empty pieces dropped; with a dot in the path the last piece left is non-empty. A path without a dot comes back whole, even when empty. |
| Config.Get | src/main/java/net/redstonelamp/config/YamlConfig.java:70-81 | A path without '.' is looked up in the root map directly. |
| Config.GetString | src/main/java/net/redstonelamp/config/YamlConfig.java:83-85 | A string value is returned and null stays null. Any other value throws ClassCast, and an exception from `get` passes through unchanged. |
| Config.GetBoolean | src/main/java/net/redstonelamp/config/YamlConfig.java:87-89 | True exactly for a string equal to "true" ignoring case. Null gives false, and lookup errors propagate. |
| Config.GetInMap | src/main/java/net/redstonelamp/config/YamlConfig.java:119-124 | The nested map when the root value under the name is a map, and the root map itself otherwise. |
| ConfigProofs.JoinSplitAll | src/main/java/net/redstonelamp/config/YamlConfig.java:74 | Joining the pieces with '.' gives back the path. |
| ConfigProofs.SplitAllJoin | src/main/java/net/redstonelamp/config/YamlConfig.java:74 | Splitting a join of dot-free keys gives back the keys. |
| ConfigProofs.JavaSplitJoin | src/main/java/net/redstonelamp/config/YamlConfig.java:74 | The Java split of a dotted join of keys, the last non-empty, is the keys. |
| ConfigProofs.DescendFound | src/main/java/net/redstonelamp/config/YamlConfig.java:75-79 | When every prefix of the keys leads to a map, the walk reaches the map at the end of the path. |
| ConfigProofs.DescendFails | src/main/java/net/redstonelamp/config/YamlConfig.java:75-79 | Consider the first prefix that does not lead to a map. A value there throws ClassCast. Nothing there gives null at the end of the walk, and NullPointer before it. |
| ConfigProofs.GetDottedFound | src/main/java/net/redstonelamp/config/YamlConfig.java:70-81 | If every intermediate key selects a map, `get` on the dotted path returns the value at that path, or null. |
| ConfigProofs.GetDottedFails | src/main/java/net/redstonelamp/config/YamlConfig.java:74-80 | A missing intermediate key throws NullPointer, and a non-map intermediate value throws ClassCast. |
| ConfigProofs.TrailingDotIgnored | src/main/java/net/redstonelamp/config/YamlConfig.java:74-80 | "key." finds what "key" finds, because the trailing empty piece is dropped. |
| ConfigProofs.OnlyDotsThrow | src/main/java/net/redstonelamp/config/YamlConfig.java:74-80 | A path of dots only splits into nothing and throws IndexOutOfBounds. |
| ConfigProofs.GetBooleanOfRootKey | src/main/java/net/redstonelamp/config/YamlConfig.java:83-89 | For a root key: absent gives false, a non-string throws ClassCast, and a string gives whether it is "true" ignoring case. |
| RakNet.Parse | src/raknet/packets/JoinPacket.java:21-32 | Empty data underflows. Another packet ID leaves every field unset. Otherwise input shorter than 24 bytes underflows, and else: magic is bytes 1-16, cookie bytes 17-20, MTU the big-endian short at 22-23, and the address comes from the datagram, with the datagram's port cast to `short`. |
| RakNet.Reply | src/raknet/packets/JoinPacket.java:35-45 | Exactly 30 bytes: the ID, the magic, eight zero bytes of server ID, the port, the MTU and a zero byte. |
| RakNet.ReplyEchoesRequest | src/raknet/packets/JoinPacket.java:25-41 | The reply carries the request's magic and MTU bytes unchanged, and the datagram's port cast to `short`. |
| RakNet.ServerIdIgnored | src/raknet/packets/JoinPacket.java:18-39 | The serverID, address and port arguments change nothing, and the reply's server-ID field is always zero. |
| RakNet.OtherPacketRepliesWithZeros | src/raknet/packets/JoinPacket.java:21-45 | After a packet of another kind, every reply byte but the ID is zero. |

## Left out

- Plugin discovery and classloading (`mgr.loadPlugins()`), `init`'s logger and `PluginManager.init`, and `getJavaPluginManager`'s cast are not modelled. The registry is an input, and manager grouping is only its order.
- Warning texts are reduced to a warning kind and, where the source names one, the dependency.
- The loader callbacks and `dependsOn`/`softDependsOn` are not part of this model. Their assumed behaviour is stated above.
- LifecycleProofs.InitReady, LifecycleProofs.EnableReady, LifecycleProofs.InitStopsAtMissing, LifecycleProofs.EnableStopsAtRefused, LifecycleProofs.EnableStopsAtSoftRefused: the exact result, including "the callback fires exactly once", is stated only when no dependency needs recursion. With recursion, the outcome clauses of `InitPlugin` and `EnablePlugin`, their step predicates, and `InitBlockedByMissing`, `EnableBlockedByRefused` and `EnableBlockedBySoftRefused` bound what happens.
- Lifecycle.InitPlugin, Lifecycle.EnablePlugin, Lifecycle.DisablePlugin: these, and the batch drivers, take a `fuel` bound on the recursion depth. With the fuel exhausted they report `OutOfFuel`, where the source would keep recursing until the stack overflows. Every property is stated for the outcomes that finish.
- Case-insensitive comparison folds ASCII letters only. Java's full Unicode case folding is not modelled.
- Strings in `BinaryBuffer` are their encoded bytes. The platform-charset conversion in `getString`/`putString` is not modelled.
- `ByteBuffer` limit and mark are not modelled: the limit is always the capacity.
- After an exception the buffer's state is not modelled, because the operation returns only the exception.
- Buffers.Put: Java's `int` limit on array sizes is not modelled. In the source, `all.length + bytes.length` at `BinaryBuffer.java:88` can overflow to a negative size, and `ByteBuffer.allocate` then throws IllegalArgumentException. Here the grown buffer always has the exact total size.
- Aliasing is not modelled. `wrapBytes` shares the caller's array, and `toArray` (`BinaryBuffer.java:220-222`) hands out the backing array. A write made through either alias is not seen by the modelled buffer, which is a value.
- `toArray`, `getOrder`, `getPosition` and `remaining` are plain field reads of the modelled buffer and have no members of their own.
- `YamlConfig`'s constructor is not modelled: file reading and YAML parsing. The parsed root map is an input.
- `getReader`, `getObject`, `getMap` and `getInt` are not modelled. `getInt` is `Integer.parseInt` over `getString`.
- `RegisteredTask`'s task bodies (`onRun`) and the ticker that calls `check` are not modelled. Only the tick passed to each run is recorded.
- Ticker.Check: the `long` counter is unbounded here, so wrap-around after 2^63 checks is not modelled.
- `JoinPacket.process` (logging and sending) is not modelled. The packet-ID constants come from a class that is not part of this model, so they are parameters.
- RakNet.Reply: the reply is its 30 bytes. The returned `ByteBuffer`'s position, left at 30 by the writes, is not modelled.
- `PCNetworkConst`, `LapisLazuliBlock`, `PEInterface` and both `EventManager` classes hold no behaviour beyond constants and list appends, and are not part of this model.

## Findings

| source | as written | input that shows it | evidently intended | confidence | as-written member | corrected member |
|---|---|---|---|---|---|---|
| src/main/java/net/redstonelamp/nio/BinaryBuffer.java:86-89 | On overflow, `put` rewinds to 0 and reads `remaining()`, which is the whole old array including unwritten bytes past the position. It then appends the new bytes after all of it. | `newInstance(4, BIG_ENDIAN)` then `putString("abc")`. The length goes to bytes 0-1 and "abc" to bytes 4-6, so `getString` from 0 reads 00 00 61. | Keep only the bytes before the position, then the new bytes, so they follow what was written. | not executed | BufferProofs.PutStringLosesBytesOnGrowth | BufferProofs.PutStringGetStringIntended |
| src/main/java/net/redstonelamp/nio/BinaryBuffer.java:88 | The grown buffer comes from `ByteBuffer.allocate`, which is big-endian, and the old order is not re-applied. | `newInstance(0, LITTLE_ENDIAN)` then `putShort(1)` twice. The first write is little-endian, but the second is big-endian (00 01) and reads back little-endian as 256. It also breaks the string round trip: `newInstance(0, LITTLE_ENDIAN)`, `putString("abc")`, `setPosition(0)`, `getString()` underflows. | The grown buffer keeps the buffer's byte order. | not executed | BufferProofs.GrowthResetsOrder, BufferProofs.PutStringAtEndTurnsBigEndian | BufferProofs.PutIntendedReadBack, BufferProofs.PutStringGetStringIntended |

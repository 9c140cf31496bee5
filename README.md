# F4T temperature-chamber controller, modelled in Dafny

This project models the control core of a Python driver for a Watlow F4T
temperature-chamber controller. The driver speaks a line-oriented SCPI-style
text protocol over a TCP socket. It has two layers:

- `Device` sends commands as ASCII text followed by `\n`. It reads replies with
  `recv(BUF_CHUNK)`, with `BUF_CHUNK = 10`, until a chunk ends in the newline
  or the socket times out. A timeout before any byte arrives yields the sentinel
  text `FAILED`.
- `F4TController` builds the controller's commands, including:
  - units, ramps, profiles, setpoints, temperature queries and relay outputs;
  - the "cascade" option, which replaces the `:SOURCE:CLOOP<n>` command family
    with `:SOURCE:CASCADE<n>`;
  - the KEY1 polling loop that switches cascade air control on;
  - the profile-name scan `get_profiles`.

The network peer is modelled as a script of receive events:

- `Chunk(bytes)` carries 1 to 10 bytes.
- `Timeout` stands for a socket timeout.
- An exhausted script behaves as a timeout that consumes nothing.

The device keeps two logs:

- `sent`, every line written to the socket;
- `incoming`, the events not yet read.

Each controller method states:

- the lines it appends to `sent`;
- the events it leaves in `incoming`;
- its result, as a function of the script it started from.

Python exceptions become `Result` values:

- `EncodeError`: `str.encode('ascii')` fails.
- `DecodeError`: `bytes.decode('ascii')` fails.
- `InvalidValue`: an enum constructor raises `ValueError`.
- `NoReply`: only for a KEY1 poll whose peer has run out of replies, where the
  source would loop forever.

Modules:

- `Outcomes` holds `Option`, `Result` and `Failure`.
- `Framing` holds:
  - bytes and receive events;
  - the ASCII codec;
  - `str.strip()`;
  - the specification of `_readline`, which is `LineFrom`.
- `Commands` holds:
  - the three enums;
  - decimal formatting of integers;
  - every command string;
  - the reply decoders.
- `Transport` holds the class `Device`.
- `Controller` holds:
  - the class `F4TController`;
  - the specification functions of its loops: `AirControl`, `Configure`,
    `CascadeInitSpec` and `Probe`.

Three behaviours of the code are worth stating plainly, because a reader might expect otherwise:

- `get_profiles` probes profiles 1 to 39 only, because its loop is `range(1, 40)`. The commented-out check in `select_profile` (src/f4t_control.py:163) admits profile 40.
- `cascade_init` sends five configuration commands.
- `set_units` does not update the stored units.

## Model

| member | source | states |
|---|---|---|
| `Commands.ParseUnits` | src/f4t_control.py:10-15 | `TempUnits(text)` gives a unit exactly when `text` is that unit's value (`C` or `F`); any other text is refused |
| `Commands.ParseScale` | src/f4t_control.py:17-22 | `RampScale(text)` accepts exactly `MINUTES` and `HOURS` |
| `Commands.ParseAction` | src/f4t_control.py:24-31 | `RampAction(text)` accepts exactly `OFF`, `STARTUP`, `SETPOINT` and `BOTH` |
| `Framing.DecodeSpec` | src/f4t_control.py:80 | ASCII decoding succeeds exactly when every byte is below 128, and maps each byte to the character with that code |
| `Framing.DecodeEncode` | src/f4t_control.py:80-86 | decoding the ASCII encoding of a text gives the text back |
| `Framing.StripSlice` | src/f4t_control.py:80 | `strip()` returns a contiguous slice of its input; what it drops is whitespace, and the result neither starts nor ends with whitespace |
| `Framing.StripPadded` | src/f4t_control.py:80 | stripping whitespace padding from both ends of a text that has no outer whitespace gives exactly that text |
| `Framing.StripAllSpace` | src/f4t_control.py:80 | a text of whitespace only strips to the empty string |
| `Framing.StripIdempotent` | src/f4t_control.py:119 | stripping twice is stripping once, so `get_profiles`' second `strip()` changes nothing |
| `Framing.StripTrailingEol` | src/f4t_control.py:73-80 | the reply's terminating newline never reaches the returned line |
| `Framing.CollectFramed` | src/f4t_control.py:71-76 | the reading loop appends chunks until one ends in the newline, and consumes exactly those chunks |
| `Framing.CollectUnterminated` | src/f4t_control.py:71-78 | a timeout inside the reading loop ends it with the bytes gathered so far |
| `Framing.LineFromFramed` | src/f4t_control.py:68-82 | a reply cut into chunks of which only the last ends in the newline is read whole: the line is the decoded, stripped concatenation, and the later events are left unread |
| `Framing.LineFromSplitInvariant` | src/f4t_control.py:68-82 | two chunkings of the same reply give the same line and leave the same events |
| `Framing.LineFromPartial` | src/f4t_control.py:68-82 | on a timeout after some chunks, the partial data is returned (decoded and stripped) and nothing is raised |
| `Framing.LineFromTimeoutFirst` | src/f4t_control.py:69-78 | a timeout before any byte gives the sentinel line `FAILED` |
| `Framing.SentinelLine` | src/f4t_control.py:69-80 | the sentinel bytes decode and strip to `FAILED` |
| `Framing.LineFromReply` | src/f4t_control.py:68-82 | a peer that answers with the ASCII text of a line followed by the newline is heard as that line, stripped |
| `Framing.LineFromConsumes` | src/f4t_control.py:68-82 | a read consumes a non-empty prefix of the pending events (none when the peer is silent) |
| `Framing.LineFromAsciiNeverFails` | src/f4t_control.py:68-82 | when the peer sends only ASCII bytes, a read never fails |
| `Commands.IntRoundTrip` | src/f4t_control.py:142-164 | the decimal text of an integer is non-empty, made of digits after an optional minus sign, and parses back to the integer |
| `Commands.IntToStringInjective` | src/f4t_control.py:142-164 | distinct integers are formatted as distinct texts |
| `Commands.FamiliesDisjoint` | src/f4t_control.py:172-244 | no command belongs both to the `CLOOP` family and to the `CASCADE` family |
| `Commands.LoopPathCommand` | src/f4t_control.py:172-244 | a command built on a loop path is in the cascade family exactly when the cascade option is set, and in the `CLOOP` family exactly when it is not |
| `Commands.TemperatureQueryFamily` | src/f4t_control.py:172-182 | the temperature query is in the family the cascade option selects, and is ASCII |
| `Commands.SetpointQueryFamily` | src/f4t_control.py:184-191 | the setpoint query is in the family the cascade option selects, and is ASCII |
| `Commands.SetpointCommandFamily` | src/f4t_control.py:232-237 | the setpoint write is in the family the cascade option selects, and is ASCII |
| `Commands.InputErrorQueryFamily` | src/f4t_control.py:239-246 | the input-error query is in the family the cascade option selects, and is ASCII |
| `Commands.RampCommandsDirect` | src/f4t_control.py:140-160 | whatever the cascade option, the four ramp commands are `CLOOP` commands and never cascade commands |
| `Commands.CascadeConfigFamily` | src/f4t_control.py:199-213 | the cascade configuration consists of five commands, all in the cascade family and all ASCII |
| `Commands.SetOutputAscii` | src/f4t_control.py:259-260 | the relay command can be encoded exactly when the state text is ASCII |
| `Commands.LoopPathInjective` | src/f4t_control.py:172-244 | a loop command determines its family, its loop number and its tail |
| `Commands.TemperatureQueryInjective` | src/f4t_control.py:172-182 | distinct family or loop choices give distinct temperature queries |
| `Commands.SetpointCommandInjective` | src/f4t_control.py:232-237 | a setpoint write determines its family, its loop and its temperature |
| `Commands.OutputState` | src/f4t_control.py:248-257 | `is_done` decodes `ON` as true and `OFF` as false, and anything else as none |
| `Commands.RemoveQuotesSpec` | src/f4t_control.py:119 | removing quotes leaves no quote, keeps only characters of the input, and keeps each character that is not `"` |
| `Commands.RemoveQuotesCount` | src/f4t_control.py:119 | every character other than `"` is kept exactly as many times as it occurs |
| `Commands.RemoveQuotesAppend` | src/f4t_control.py:119 | quote removal works character by character: a quote is dropped, any other character is kept, and the pieces of a text keep their order |
| `Commands.ProfileNameSpec` | src/f4t_control.py:119 | a recorded profile name holds no quote, and a line that is already a stripped name without quotes is kept as it is |
| `Transport.LinesAppend` | src/f4t_control.py:84-86 | the lines written for two runs of commands are the lines of the first run followed by those of the second |
| `Transport.Device.constructor` | src/f4t_control.py:43-53 | a device built on an existing connection with a given id: nothing sent yet, and the id kept |
| `Transport.Device.Open` | src/f4t_control.py:43-56 | the `*IDN?` handshake runs exactly when no id is given; a given id is kept and nothing is sent; otherwise the id is the reply read after clearing one event |
| `Transport.Device.ReadLine` | src/f4t_control.py:68-82 | a read returns `LineFrom` of the pending events and leaves the rest |
| `Transport.Device.SendCommand` | src/f4t_control.py:84-86 | an ASCII command is written with a newline appended; a non-ASCII one raises and writes nothing |
| `Transport.Device.ClearBuffer` | src/f4t_control.py:58-66 | clearing the buffer drops at most one pending event |
| `Transport.Device.GetId` | src/f4t_control.py:88-92 | `*IDN?` is sent after clearing one event; the reply becomes the id |
| `Controller.AirControlUntilMatch` | src/f4t_control.py:215-230 | against replies whose first match with the wanted state is the last one, the KEY1 loop sends `:KEY1?` and `:KEY1 PRESS` for each mismatch, then a final `:KEY1?`, and succeeds |
| `Controller.AirControlNeverMatching` | src/f4t_control.py:215-230 | a peer that never reports the wanted state keeps the loop pressing KEY1 until its replies run out |
| `Controller.AirControlOffThenOn` | src/f4t_control.py:215-230 | when the peer answers `OFF` and then `ON`, switching air control on sends query, press, query |
| `Controller.ConfigureSends` | src/f4t_control.py:199-213 | the configuration commands sent are a prefix of those asked for; all of them are sent when nothing raised |
| `Controller.ConfigureAnswered` | src/f4t_control.py:199-213 | when every command gets an answer line, the configuration sends all its commands and succeeds |
| `Controller.CascadeInitSequence` | src/f4t_control.py:193-213 | without the cascade option nothing is sent; with it, the KEY1 loop comes first, then the five configuration commands |
| `Controller.ProbeOrder` | src/f4t_control.py:112-124 | whatever the peer answers, `get_profiles` probes profiles in increasing order from the first and never past 39. Every probe but the last records a name, and a run in which every probe records one reaches 39 |
| `Controller.ProbeUntilEmpty` | src/f4t_control.py:112-124 | when the replies name profiles until one whose name is empty, every reply up to that one is probed and its name recorded in order. The scan stops right after the empty one and succeeds |
| `Controller.ProbeAllNamed` | src/f4t_control.py:112-124 | when every reply up to profile 39 names a profile, all of them are probed and recorded in order, and the scan ends there |
| `Controller.ProbeNames` | src/f4t_control.py:119-122 | every recorded profile name is non-empty and free of quotes |
| `Controller.RecordContiguous` | src/f4t_control.py:121-122 | the names are recorded under consecutive profile numbers from the first probed, and other entries are kept |
| `Controller.ProbeSilentPeer` | src/f4t_control.py:112-124 | against a silent peer every probe reads the sentinel, so all 39 profiles are recorded as `FAILED` |
| `Controller.SentinelName` | src/f4t_control.py:119 | the sentinel line survives the name clean-up unchanged |
| `Controller.F4TController.constructor` | src/f4t_control.py:100-108 | the controller's fields start as given, with no profiles known |
| `Controller.F4TController.Connect` | src/f4t_control.py:100-110 | the device is opened, with the id handshake only when no id is given, and then `cascade_init` runs on loop 1 |
| `Controller.F4TController.GetProfiles` | src/f4t_control.py:112-124 | sends and reads what `Probe` prescribes from profile 1, and records the names it found in `profiles` |
| `Controller.F4TController.GetUnits` | src/f4t_control.py:126-131 | sends `:UNIT:TEMP?` after clearing one event. The units change only on a valid reply; a read error or an invalid reply leaves them as they were |
| `Controller.F4TController.SetUnits` | src/f4t_control.py:133-138 | sends the given units, or the stored ones when none are given, then reads and discards a reply |
| `Controller.F4TController.SetRampAction` | src/f4t_control.py:140-144 | an invalid action is refused before anything is sent; a valid one is sent as a `CLOOP` command and its reply is discarded |
| `Controller.F4TController.SetRampScale` | src/f4t_control.py:146-150 | an invalid scale is refused before anything is sent; a valid one is sent and its reply is discarded |
| `Controller.F4TController.SetRampRate` | src/f4t_control.py:152-155 | the rate is sent unchecked, and the reply is discarded |
| `Controller.F4TController.SetRampTime` | src/f4t_control.py:157-160 | the time is sent unchecked, and the reply is discarded |
| `Controller.F4TController.SelectProfile` | src/f4t_control.py:162-164 | sends `:PROGRAM:NUMBER <profile>` and reads nothing |
| `Controller.F4TController.RunProfile` | src/f4t_control.py:166-167 | sends the start command and reads nothing |
| `Controller.F4TController.StopProfile` | src/f4t_control.py:169-170 | sends the stop command and reads nothing |
| `Controller.F4TController.GetTemperature` | src/f4t_control.py:172-182 | sends the query of the family the cascade option selects, and returns the next line |
| `Controller.F4TController.GetTemperatureSetpoint` | src/f4t_control.py:184-191 | sends the setpoint query of the selected family, and returns the next line |
| `Controller.F4TController.SetTemperature` | src/f4t_control.py:232-237 | sends the setpoint write of the selected family and reads nothing |
| `Controller.F4TController.QueryInputError` | src/f4t_control.py:239-246 | sends the error query of the selected family, and returns the raw line |
| `Controller.F4TController.IsDone` | src/f4t_control.py:248-257 | sends the output-state query and decodes the reply with `OutputState` |
| `Controller.F4TController.SetOutput` | src/f4t_control.py:259-260 | the state text is sent verbatim; it fails, writing nothing, exactly when the text is not ASCII |
| `Controller.F4TController.SetCascadeAirControl` | src/f4t_control.py:215-230 | without the cascade option nothing is sent or read; with it, the exchange is exactly the KEY1 loop `AirControl` |
| `Controller.F4TController.CascadeInit` | src/f4t_control.py:193-213 | the exchange is exactly `CascadeInitSpec`: nothing without the cascade option, otherwise the KEY1 loop and then the five configuration commands, stopping at the first error |
| `Controller.F4TController.SendConfiguration` | src/f4t_control.py:199-213 | the five configuration commands, each followed by a discarded reply, as `Configure` prescribes |

## Left out

- Sockets are replaced by a script of receive events:
  - Connecting, `settimeout` and the timeout values (`None`, and 1.5 s for the controller) are not modelled; a timeout is an event of the script.
  - A `recv` that returns no bytes (a closed peer) is not modelled. Every chunk in the model carries 1 to 10 bytes. In the source, the effect depends on where the empty chunk comes:
    - As the first chunk, it makes `msg[-1]` raise `IndexError` (src/f4t_control.py:71-73).
    - As a later chunk, `msg.extend(b'')` leaves the buffer unchanged. A closed peer keeps returning no bytes, so the loop never ends (src/f4t_control.py:73-75).
- The encoding is fixed to ASCII; the `encoding` keyword argument is not modelled.
- `debug` tracing and every `print` are not modelled. That includes the one in `_clear_buffer`.
- `atexit` registration, `__del__` and closing the connection are not modelled.
- The `_sleep` pauses are not modelled, because they only delay.
- Temperatures, setpoints, ramp rates and ramp times are modelled as integers, because floating point is out of scope:
  - Python's formatting of a `float` argument is not modelled.
  - The `float()` parsing in `get_temperature` and `get_temperature_setpoint` is not modelled.
- Controller.F4TController.GetTemperature: returns the reply line rather than `float()` of it. In the source, `float('FAILED')` after a timeout, or any non-numeric reply, raises `ValueError` (src/f4t_control.py:182). The model returns `Ok` with that raw line instead.
- Controller.F4TController.GetTemperatureSetpoint: returns the reply line rather than `float()` of it. In the source, `float('FAILED')` after a timeout, or any non-numeric reply, raises `ValueError` (src/f4t_control.py:191). The model returns `Ok` with that raw line instead.
- Controller.F4TController.SetCascadeAirControl: a poll whose peer has run out of replies ends with `NoReply`, where the source polls for ever. That is the only way a finite script can end the loop.
- `Device.from_other_dev` is not modelled. It is a factory that only copies the connection and id, and its `issubclass` check takes a class, not an instance.
- The `__main__` demonstration script is not modelled.
- Controller.F4TController.Connect: opens a fresh scripted device rather than a socket to a host and port.

# LOLopener: a Dafny model of the door sensor, the IRC bot and the GPIO driver

LOLopener tells the members of a hackerspace whether their room (the
"LOLcal") is open. A switch on a Raspberry Pi GPIO pin gives the state.
The project models three parts:

- the kernel driver `lol_gpio.c`, which maps BCM2835 GPIO registers,
  configures the pins and sets, clears and reads them;
- the state holder `LOLOpenStatus`, which decodes the level of the switch
  pin (active low: 0 is open, 1 is closed), keeps the last state and
  detects changes;
- the IRC bot `LolOpenerIrcBot`, which answers "ouvert ?" questions,
  stops on request in a private message, and announces every change.

Modules, one per file:

- `Wrappers` (`wrappers.dfy`): `Option`.
- `OpenStatus` (`open_status.dfy`):
  - decoding of one reading;
  - the update rule (`Reported`, `Next`) with its lemmas;
  - runs of updates over a sequence of readings;
  - the class `LOLOpenStatus`, whose field `openState` is `_is_open`. Its
    value is `None` when the first read failed.
- `Text` (`text.dfy`): the Python string operations the bot relies on:
  - `startswith`;
  - `in`;
  - `strip()`, with Python's full set of whitespace characters;
  - `replace(pat, '')`;
  - `isalnum()` on one character.
- `IrcBot` (`irc_bot.dfy`):
  - the class `LolOpenerIrcBot`, holding `nick`, `channel`, the status
    holder and the copied state `isOpen`;
  - `ParseMessage`, which returns an `Outcome`: a reply, or the exception
    Python raises (`TypeError` when the nick is None, `IndexError` when
    removing the nick leaves nothing);
  - lemmas for each branch.
- `LolGpio` (`lol_gpio.dfy`):
  - the register-index macros on 8-bit values;
  - the 3-bit function fields of GPFSEL words as `bv32` functions, with
    lemmas;
  - `struct reg_gpio` as the class `RegGpio`, whose register groups are
    arrays;
  - the driver state as the class `LolGpioDriver`, whose field `mgpio` is
    the mapped pointer;
  - `lol_setup_gpio`, `lol_set_gpio`, `lol_get_gpio` and `lol_gpio_init`,
    as methods and a function on those arrays.

GPSET and GPCLR are write-only in the hardware. A memory word keeps only the
last mask written to it, so the driver also keeps a ghost log `writes` of
every write to those two registers.

Inputs that the source reads from the outside world become parameters:

- The reading of the GPIO file becomes an integer `raw`. Out of the file,
  `int(f.read())` yields some integer; 0 and 1 decode, anything else gives
  None.
- The readings seen by `wait_change` become a finite sequence.
- The results of `request_mem_region` and `ioremap` become the parameters
  of `Init`.

## Model

| member | source | states |
|---|---|---|
| OpenStatus.RawLevel | lolopener/lolopenstatus.py:37-41 | the sensor level of a state is 0 or 1 (0 for open, 1 for closed) |
| OpenStatus.Decode | lolopener/lolopenstatus.py:33-43 | a reading decodes to None exactly when it is neither 0 nor 1; a decoded state is the one whose level was read |
| OpenStatus.DecodeRawLevel | lolopener/lolopenstatus.py:37-41 | decoding the level of a state gives that state back |
| OpenStatus.UnknownKeepsState | lolopener/lolopenstatus.py:76-78 | an unreadable value makes `update` return None and leaves the stored state unchanged |
| OpenStatus.ReportedIffDiffers | lolopener/lolopenstatus.py:75-87 | `update` returns True iff the reading differs from the truth value of the stored state, False iff it equals it, and None iff the reading is unreadable |
| OpenStatus.ReportedIffStateMoves | lolopener/lolopenstatus.py:80-87 | `update` returns True exactly when it changes the stored state |
| OpenStatus.NextAgreesWithReading | lolopener/lolopenstatus.py:80-85 | after a readable value the stored state's truth value is that reading; the state becomes the reading, except that None stays None on a closed reading |
| OpenStatus.UpdateIdempotent | lolopener/lolopenstatus.py:75-87 | repeating an update with the same reading changes nothing; it returns False when the reading is readable and None when it is not |
| OpenStatus.FailedFirstReadActsClosed | lolopener/lolopenstatus.py:80-85 | a None state acts as closed: a closed reading is no change and keeps None, an open reading is a change to True |
| OpenStatus.Reports | lolopener/lolopenstatus.py:68-87 | a run of updates has one result per reading |
| OpenStatus.AfterUpdatesSnoc | lolopener/lolopenstatus.py:68-87 | one more reading applies one more update to the state reached so far |
| OpenStatus.AfterUpdatesTracksLastKnown | lolopener/lolopenstatus.py:68-87 | after any run of updates the stored state's truth value is the last readable value; with no readable value the state is untouched |
| OpenStatus.ReportsMarkStateChanges | lolopener/lolopenstatus.py:68-87 | the i-th update of a run returns True exactly when it moves the stored state; it reports against the state the first i updates left |
| OpenStatus.ExampleRun | lolopener/lolopenstatus.py:68-87 | for the readings closed, closed, open, open, closed starting from closed, the updates return False, False, True, False, True |
| OpenStatus.FirstChange | lolopener/lolopenstatus.py:60-61 | picks the first reading that `update` reports as a change against an unchanged state, or none when no reading is |
| OpenStatus.NoChangeRunKeepsState | lolopener/lolopenstatus.py:60-61 | updates that all return False or None leave the state as it was |
| OpenStatus.FirstChangeIsFirst | lolopener/lolopenstatus.py:60-61 | the first reading reported as a change is the one FirstChange names |
| OpenStatus.NoChangeHasNoFirst | lolopener/lolopenstatus.py:60-61 | a run with no reported change has no first change |
| OpenStatus.LOLOpenStatus.constructor | lolopener/lolopenstatus.py:14-17 | the stored state is the decoding of the first reading, which may be None |
| OpenStatus.LOLOpenStatus.IsOpen | lolopener/lolopenstatus.py:64-66 | `is_open` returns the stored state and reads nothing else |
| OpenStatus.LOLOpenStatus.Update | lolopener/lolopenstatus.py:68-87 | the result and the new stored state are the update rule applied to the old state and the reading |
| OpenStatus.LOLOpenStatus.WaitChange | lolopener/lolopenstatus.py:54-62 | stops right after the first reading reported as a change and returns the new state, which is the negation of the old truth value; without such a reading it uses every reading and changes nothing |
| Text.ContainsIffOccurs | irc/lolirc.py:36 | `p in s` holds exactly when `p` occurs at some index of `s` |
| Text.ShorterNeverContains | irc/lolirc.py:36 | a string shorter than the pattern does not contain it |
| Text.StripStart | irc/lolirc.py:36 | `lstrip` returns the suffix after a run of whitespace, and the result does not start with whitespace |
| Text.StripEnd | irc/lolirc.py:36 | `rstrip` returns the prefix before a run of whitespace, and the result does not end with whitespace |
| Text.StripIsQuestionMark | irc/lolirc.py:36 | `s.strip() == '?'` holds exactly when `s` is one '?' with only whitespace before and after it |
| Text.StripQuestionHasWitness | irc/lolirc.py:36 | when `s.strip()` is '?', that '?' stands right after the leading whitespace and only whitespace follows it |
| Text.QuestionWitnessStrips | irc/lolirc.py:36 | a '?' with only whitespace around it strips to '?' |
| Text.StripStartSkipsSpace | irc/lolirc.py:36 | stripping the front stops exactly at the first non-space character |
| Text.StripEndSkipsSpace | irc/lolirc.py:36 | stripping the back stops exactly after the last non-space character |
| Text.RemoveAll | irc/lolirc.py:70 | `replace(pat, '')` never lengthens the string and leaves it as it is when `pat` is empty |
| Text.RemoveAllAbsent | irc/lolirc.py:70 | a string that does not contain the pattern is left as it is |
| Text.RemoveAllPrefix | irc/lolirc.py:70 | a message made of the nick followed by text that does not contain the nick loses only that leading nick |
| IrcBot.AskedIfOpenMeans | irc/lolirc.py:35-36 | `asked_if_open` holds exactly when "ouvert ?" or "ouvert?" occurs in the message, or the message is one '?' with only whitespace around it |
| IrcBot.LolOpenerIrcBot.constructor | irc/lolirc.py:10-17 | the bot keeps the nick, channel and status holder it is given, and copies the holder's current state |
| IrcBot.LolOpenerIrcBot.SetNick | irc/lolirc.py:19-25 | sets the nick and changes nothing else |
| IrcBot.LolOpenerIrcBot.SetChannel | irc/lolirc.py:27-33 | sets the channel and changes nothing else |
| IrcBot.LolOpenerIrcBot.OpenMessage | irc/lolirc.py:38-39 | the announcement says open when the copied state is True, and closed for False and for None |
| IrcBot.LolOpenerIrcBot.TimeoutFunction | irc/lolirc.py:41-47 | runs one update; when it returns True the bot copies the new state and announces it; on False or None it replies nothing and keeps its copy |
| IrcBot.PrivateStop | irc/lolirc.py:61-65 | a private message containing the stop phrase always gets the goodbye with the stop command, whatever else it asks |
| IrcBot.PrivateQuestion | irc/lolirc.py:61-67 | any other private message gets the announcement exactly when it asks if the room is open, and otherwise no reply |
| IrcBot.RepliesAreExact | irc/lolirc.py:49-74 | every reply is the announcement, or the goodbye sent only to a private message; exceptions are raised only by channel messages |
| IrcBot.ChannelReply | irc/lolirc.py:68-72 | a channel message gets the announcement exactly when all of these hold: it starts with the nick; removing every nick leaves a first character that is not alphanumeric; what follows that character asks if the room is open |
| IrcBot.ChannelNickAloneRaises | irc/lolirc.py:70 | a channel message that is just the nick raises IndexError |
| IrcBot.ChannelWithoutNickRaises | irc/lolirc.py:70 | a channel message to a bot whose nick is None raises TypeError |
| IrcBot.ChannelExample | irc/lolirc.py:68-72 | the bot named "lolopener" answers "lolopener: ouvert ?" on "#testlol" with the announcement |
| LolGpio.GpfIdx | lol_gpio/lol_gpio.c:36 | the GPFSEL word of a pin below 60 is one of the six words |
| LolGpio.GpfOffs | lol_gpio/lol_gpio.c:37 | the offset of a function field is at most 27, so the field fits a 32-bit word |
| LolGpio.GpfLocation | lol_gpio/lol_gpio.c:36-37 | pin `g` is field number `offset / 3` of word `g / 10`, and its offset is a multiple of three |
| LolGpio.GpsclIdx | lol_gpio/lol_gpio.c:39 | a pin below 64 is in one of the two GPSET/GPCLR/GPLEV words |
| LolGpio.GpsclOffs | lol_gpio/lol_gpio.c:40 | the bit of a pin is below 32 |
| LolGpio.GpsclLocation | lol_gpio/lol_gpio.c:39-40 | pin `g` is bit number `offset` of word `g / 32` |
| LolGpio.FunctionFieldsDistinct | lol_gpio/lol_gpio.c:36-37 | two different pins never share a function field |
| LolGpio.LevelBitsDistinct | lol_gpio/lol_gpio.c:39-40 | two different pins never share a set/clear/level bit |
| LolGpio.PinFieldsDisjoint | lol_gpio/lol_gpio.c:36-37 | the fields of two different pins in one GPFSEL word share no bit |
| LolGpio.FieldsDisjoint | lol_gpio/lol_gpio.c:101 | 3-bit masks at two different multiples of three share no bit |
| LolGpio.WithFieldSetsField | lol_gpio/lol_gpio.c:100-103 | after the write, the pin's 3-bit field holds the mode |
| LolGpio.WithFieldKeepsRest | lol_gpio/lol_gpio.c:101-102 | the write leaves every bit outside the field's mask as it was |
| LolGpio.WithFieldKeepsOtherBits | lol_gpio/lol_gpio.c:101-102 | every single bit outside the field keeps its value |
| LolGpio.FieldIsolation | lol_gpio/lol_gpio.c:100-103 | writing one field leaves any field with a disjoint mask as it was |
| LolGpio.WithFieldIdempotent | lol_gpio/lol_gpio.c:100-103 | writing the same mode twice gives the word that writing it once gives |
| LolGpio.WithFieldCommutes | lol_gpio/lol_gpio.c:100-103 | writes to two fields of one word with disjoint masks give the same word in either order |
| LolGpio.SetupSetsPin | lol_gpio/lol_gpio.c:98-104 | after a setup the pin's function field holds the mode |
| LolGpio.SetupKeepsOtherPins | lol_gpio/lol_gpio.c:98-104 | a setup leaves every other pin's mode as it was |
| LolGpio.SetupKeepsOtherBits | lol_gpio/lol_gpio.c:98-104 | a setup leaves every other GPFSEL word, and every bit of its own word outside the pin's field, as they were |
| LolGpio.SetupIdempotent | lol_gpio/lol_gpio.c:98-104 | setting a pin to the same mode twice gives the registers of setting it once |
| LolGpio.SetupCommutes | lol_gpio/lol_gpio.c:98-104 | setting up two different pins gives the same registers in either order |
| LolGpio.SetupCommutesInOneWord | lol_gpio/lol_gpio.c:98-104 | the same, for two pins of one GPFSEL word |
| LolGpio.PinMaskSelectsPin | lol_gpio/lol_gpio.c:126 | the mask `1 << GPSCL_OFFS(g)` has exactly the pin's bit set |
| LolGpio.ConfiguredModes | lol_gpio/lol_gpio.c:178-182 | after the configuration pin 4 is input (0), pins 7, 8, 9 and 11 are output (1), and every other pin keeps its mode |
| LolGpio.LayoutMatchesManual | lol_gpio/lol_gpio.c:47-63 | the struct places GPSET, GPCLR, GPLEV, GPEDS, GPREN and GPFEN at the byte offsets 0x1C, 0x28, 0x34, 0x40, 0x4C and 0x58 that section 6.1 of the BCM2835 ARM Peripherals manual gives, and is 0x64 bytes long |
| LolGpio.ReadModifyWrite | lol_gpio/lol_gpio.c:100-103 | only the chosen word changes, and it gets the field write |
| LolGpio.RegGpio.constructor | lol_gpio/lol_gpio.c:47-63 | a register block has six GPFSEL words and two words for each other group, in arrays that are all distinct |
| LolGpio.LolGpioDriver.constructor | lol_gpio/lol_gpio.c:67 | the driver starts unmapped, with no set or clear written |
| LolGpio.LolGpioDriver.SetupGpio | lol_gpio/lol_gpio.c:86-106 | returns -1 while unmapped and -2 for a mode other than input or output, for any pin, changing nothing; otherwise returns 0 and the GPFSEL words are those of the setup |
| LolGpio.LolGpioDriver.SetGpio | lol_gpio/lol_gpio.c:117-137 | returns -1 while unmapped and -2 for a value other than 0 or 1, for any pin, writing nothing. Value 1 writes the pin's mask to its GPSET word and value 0 to its GPCLR word; that one write is logged and nothing else changes |
| LolGpio.LolGpioDriver.GetGpio | lol_gpio/lol_gpio.c:146-158 | returns -1 exactly while unmapped; otherwise 1 when the pin's GPLEV bit is set and 0 when it is clear |
| LolGpio.LolGpioDriver.ConfigurePins | lol_gpio/lol_gpio.c:178-182 | the five setups of the init leave the GPFSEL words configured |
| LolGpio.LolGpioDriver.Init | lol_gpio/lol_gpio.c:163-187 | keeps the driver valid on every path, so the other operations stay callable; fails with -1 when the region is not reserved or the mapping is null, and then writes to no register. On success it returns 0, keeps the mapping, configures the pins and writes set masks for pins 7 and 9, in that order. GPSET word 0 is left holding pin 9's mask, and GPCLR is untouched |
| LolGpio.LolGpioDriver.Exit | lol_gpio/lol_gpio.c:189-192 | the module exit clears pins 7 and 9, in that order: GPCLR word 0 is left holding pin 9's mask, GPSET is untouched and the log gets the two clear writes; while unmapped both calls return -1 and nothing is written |

## Left out

- Reading the GPIO file (`open`, `int(f.read())` and the `ValueError` a non-number raises) is not modelled; the reading is an integer parameter.
- Locking (`_lock`, `_unlock`, the `lock` parameter) is not modelled: the model is sequential. In `lolopener.py` each thread builds its own `LOLOpenStatus` and no lock is ever passed in; the shared holder with a lock is commented out there.
- `has_changed` is not modelled. It is not one of the modelled operations, and as written it returns None on every path.
- OpenStatus.LOLOpenStatus.WaitChange: readings are finite, so where the source loops forever with no change, the method returns with `found` false.
- The default argument `open_status=LOLOpenStatus()` is evaluated once, at import. It reads the file then; the model passes the status holder to the constructor.
- The `print` in `parse_message`, the `__main__` block, and the IRC connection through `PyIrciBot` are I/O and are not modelled.
- `lolopener.py` and `lolmail.py`, the threads and the mail notifier, are not part of this model.
- Text.IsAlnum covers the characters up to U+00FF only; Python's `isalnum` also accepts letters and digits of the other Unicode blocks.
- Text.RemoveAll: its contract bounds the length only. How it acts on the bot's messages is stated by RemoveAllAbsent and RemoveAllPrefix.
- The kernel calls are not modelled: `request_mem_region`, `ioremap`, `iounmap`, `release_mem_region`, `pr_alert` and `pr_err`. The results of the first two are parameters of `Init`.
- In `lol_gpio_exit` only the two `lol_set_gpio(..., 0)` calls are modelled; the `iounmap` and `release_mem_region` that follow are kernel calls and are not. The C does not reset `mgpio` after unmapping it, and the model leaves it unchanged too. The module registration macros are kernel glue and are not modelled.
- Volatile memory-mapped I/O is not modelled: hardware reading back different values, or reacting to a write, is outside the model. The `writes` log records the order of the GPSET and GPCLR writes.
- LolGpio.LolGpioDriver.SetupGpio and LolGpio.LolGpioDriver.SetGpio require an in-range pin only when the block is mapped and the mode (input or output) or value (0 or 1) is valid: below 60 for GPFSEL, below 64 for GPSET/GPCLR. Only then does the C index the arrays. A pin of 60 (GPFSEL) or 64 (GPSET/GPCLR) or more indexes outside the arrays. A negative pin gives a negative shift count, because C division truncates toward zero (`GPF_OFFS(-5)` is -15 and `GPSCL_OFFS(-1)` is -1), or, from -10 or -32 down, a negative index. Both are undefined behaviour with no defined result to model. A bad mode or value returns -2 for any pin.
- LolGpio.LolGpioDriver.GetGpio carries the same in-range requirement (below 64).
- LolGpio.PinMaskSelectsPin: for pin offset 31, `1 << 31` on a C `int` overflows, which is undefined behaviour. The model uses the unsigned 32-bit mask with bit 31 set, which is what the compiler produces in practice.
- The GPEDS, GPREN and GPFEN registers are only part of the layout; the driver never touches them.

# Pool controller: ADS1119 conversion and Home Assistant discovery

This project models two parts of the Raspberry Pi pool controller's Python software.

`read_voltage` drives an ADS1119 analog-to-digital converter over SMBus. It takes
one conversion in these steps:

1. reset the converter;
2. write the configuration register;
3. start the conversion;
4. poll the status register until bit 7 (ready) is set;
5. read the 16-bit data word;
6. swap the word's two bytes as a `numpy.int16`, since the device sends the most
   significant byte first and an SMBus word read assembles the first byte as the
   low byte;
7. scale the signed code by 2.048 V / 32768.

The Home Assistant side names two MQTT topics for each sensor, one for discovery
(configuration) and one for status. It also builds the discovery message: a dict
with six fixed keys, plus `unit_of_measurement` and `device_class` when those
arguments are truthy.

Files:

- `pyint.dfy` (module `PyInt`): Python's unbounded-integer `&`, `|`, `>>` and `<<`,
  defined on the infinite two's-complement expansion. Also `numpy.int16` scalar
  arithmetic as NumPy 2 types it: an int16 combined with a Python int stays
  int16, and every result wraps to 16 bits.
- `smbus.dfy` (module `SmBus`): a `Bus` class standing in for `smbus.SMBus`. It
  records every transfer in a `trace` field. It answers byte reads from a list of
  status replies and word reads from one data word.
- `ads1119.dfy` (module `Ads1119`): the converter's constants, line 51's byte swap
  and line 54's scaling. It also holds the conversion trace as a specification,
  the methods `PollUntilReady` and `ReadVoltage` that drive a `Bus`, and the
  lemmas relating them.
- `home_assistant.dfy` (module `HomeAssistant`): the topics, and f-string literal
  unescaping. It models a Python dict as its insertion-ordered keys plus a map, and
  builds the discovery message on top.

`ReadVoltage` is proved against the specification function `ConversionTrace`.
Lemmas then prove, for every sequence of status replies, what that trace is:

- which commands come first;
- that every transfer goes to the one address;
- how many status reads there are;
- that the data word is read exactly once, right after a ready status.

## Model

| member | source | states |
|---|---|---|
| Ads1119.ReadVoltage | software-python/ads1119.py:32-56 | Issues exactly the `ConversionTrace` transfers. Consumes the status replies up to and including the first ready one. Returns the decoded raw value and its voltage. |
| Ads1119.PollUntilReady | software-python/ads1119.py:39-44 | The loop appends exactly the `StatusPolls` reads and stops after the first reply with bit 7 set. The bus is then left with the replies after that one. |
| Ads1119.FirstReady | software-python/ads1119.py:39-43 | The index at which the loop leaves: that reply is ready and no earlier reply is. |
| Ads1119.ReadyTest | software-python/ads1119.py:42 | `status & STATUS_REGISTER_READY != 0` holds exactly when bit 7 of the status byte is set (byte ≥ 0x80). |
| Ads1119.ConversionBeginsWithResetConfigStart | software-python/ads1119.py:35-37 | The first three transfers are, in order: `write_byte(addr, 0x06)`, `write_byte_data(addr, 0x40, 0x00)`, `write_byte(addr, 0x08)`. |
| Ads1119.PollsUntilFirstReady | software-python/ads1119.py:39-43 | With a ready reply, the loop reads status FirstReady + 1 times, the i-th read returning reply i. |
| Ads1119.PollsWithoutReady | software-python/ads1119.py:39-44 | With no ready reply, the loop makes one status read per reply and never leaves. |
| Ads1119.ConversionTargetsOneAddress | software-python/ads1119.py:35-50 | Every transfer of a conversion goes to the address passed in. |
| Ads1119.ConversionReadsDataOnceAfterReady | software-python/ads1119.py:39-50 | The trace has FirstReady + 5 transfers. Status reads sit at positions 3..FirstReady+3, all but the last not ready. The data word (command 0x10) is read once, last, right after the ready read. |
| Ads1119.ConversionWithoutReadyReadsNoData | software-python/ads1119.py:39-50 | With no ready reply, the only transfers after the three commands are status reads, and the data register is never read. |
| Ads1119.ConversionDataOnlyAfterReady | software-python/ads1119.py:39-50 | For all replies, every data read directly follows a status read that reported the ready bit. |
| Ads1119.SwapBytesValue | software-python/ads1119.py:51 | The swap's value is the signed low byte times 256 plus the unsigned high byte. |
| Ads1119.LowByteShiftedUp | software-python/ads1119.py:51 | The int16 `<< 8` of a byte wraps under NumPy 2's typing: bit 7 of the byte becomes the sign. |
| Ads1119.SwapBytesNumPy1Agrees | software-python/ads1119.py:51 | NumPy 1.x computes line 51 in int64 and wraps only in the outer `numpy.int16`. That gives the same value as the int16 steps, for every int16. |
| Ads1119.SwapBytesSwaps | software-python/ads1119.py:51 | In the 16-bit pattern, the result's high byte is the input's low byte and vice versa. |
| Ads1119.ShiftRightKeepsSign | software-python/ads1119.py:51 | The arithmetic `>> 8` of a negative int16 stays negative, so without the mask sign bits would leak. |
| Ads1119.MaskedShiftIsHighByte | software-python/ads1119.py:51 | `(raw >> 8) & 0x00FF` is exactly the high byte of the unsigned pattern: no sign extension. |
| Ads1119.SwapBytesInvolution | software-python/ads1119.py:51 | Swapping twice gives back the original int16. |
| Ads1119.RawValueSign | software-python/ads1119.py:50-52 | `raw_value` lies in [-32768, 32767]. It is negative exactly when bit 7 of the wire word's low byte is set. |
| Ads1119.RawValueMaskRoundTrip | software-python/ads1119.py:50-55 | `raw_value & 0xFFFF`, as logged, is the byte-swapped wire word as an unsigned number. |
| Ads1119.RawValueDecodesWire | software-python/ads1119.py:46-52 | For any two bytes on the wire, `raw_value` is the two's-complement code they encode most significant byte first. |
| Ads1119.RawValueExample | software-python/ads1119.py:50-54 | The wire word 0x1234 decodes to 0x3412, with voltage 0x3412 · 2.048 / 32768. |
| Ads1119.VoltageBounds | software-python/ads1119.py:54 | For any int16 code the voltage lies in [-2.048, 2.048), is negative exactly when the code is, and is zero exactly when the code is. |
| Ads1119.NumPy2RejectsHalfTheCodes | software-python/ads1119.py:50 | As evaluated by NumPy 2, line 50 raises exactly when the device's low byte has bit 7 set (code 0x0080 is one case). Otherwise it agrees with the wrapping decode. |
| PyInt.BitAndLowMask | software-python/ads1119.py:51 | Python's `x & (2^k - 1)` is `x mod 2^k` for every integer, negative ones included. |
| PyInt.BitAndSingleBit | software-python/ads1119.py:42 | Python's `x & 2^k` is bit k of `x` times 2^k. |
| PyInt.BitOrDisjoint | software-python/ads1119.py:51 | `|` of a multiple of 2^k and a number below 2^k is their sum. |
| PyInt.Mask16IsMod | software-python/ads1119.py:55 | Python's `x & 0xFFFF` is `x mod 65536`. |
| PyInt.ToInt16Props | software-python/ads1119.py:50 | `numpy.int16(x)` keeps the low 16 bits of `x`, and leaves values already in range unchanged. |
| HomeAssistant.DiscoveryTopicRoundTrip | software-python/update_home_assistant_pool_sensors.py:22-23 | `homeassistant/sensor/<name>/config` names `<name>` and no other sensor. A topic that names `<name>` is that topic. |
| HomeAssistant.StatusTopicRoundTrip | software-python/update_home_assistant_pool_sensors.py:25-26 | The same round trip for `tele/<name>/status`. |
| HomeAssistant.TopicsDisjoint | software-python/update_home_assistant_pool_sensors.py:22-26 | No sensor's discovery topic is any sensor's status topic. |
| HomeAssistant.UnescapeEscape | software-python/update_home_assistant_pool_sensors.py:32 | Reading back an f-string literal part, with `{{` and `}}` as single braces, gives the text that was escaped. |
| HomeAssistant.TemplateIsEscaped | software-python/update_home_assistant_pool_sensors.py:32 | The f-string's literal parts `{{{{ value_json.` and ` }}}}` are the escaped forms of `{{ value_json.` and ` }}`. |
| HomeAssistant.ValueTemplateText | software-python/update_home_assistant_pool_sensors.py:32 | The value template is `{{ value_json.<field> }}`. |
| HomeAssistant.AssignProperties | software-python/update_home_assistant_pool_sensors.py:38-41 | `d[k] = v` keeps the dict well formed and binds k to v. Other keys keep their values. k joins the key order at the end exactly when it is new. |
| HomeAssistant.BaseMessageShape | software-python/update_home_assistant_pool_sensors.py:29-36 | The display is a well-formed dict without either optional key. |
| HomeAssistant.DiscoveryMessageKeys | software-python/update_home_assistant_pool_sensors.py:28-42 | Keys, in order, are name, state_topic, value_template, json_attributes_topic, unique_id, dev. Then `unit_of_measurement` iff the unit is truthy, then `device_class` iff the class is truthy. No other and no repeated key. |
| HomeAssistant.DiscoveryMessageFields | software-python/update_home_assistant_pool_sensors.py:28-42 | `name` is the sensor name. `state_topic` and `json_attributes_topic` are both the status topic. `value_template` is `{{ value_json.<field> }}`. `unique_id` is the prefix plus the name and `dev` is the device. Each optional key holds its argument when that is truthy and is absent otherwise. |

## Left out

- Opening the bus (`SMBus(bus_number)`) and the I2C transfers themselves. `SmBus.Bus` is a stand-in: it records the calls and answers them from given replies. A transport error is not modelled.
- `time.sleep(0.010)` between polls. Timing is not modelled.
- `Ads1119.ReadVoltage` requires some status reply to have the ready bit set. Otherwise the Python loop never ends, so there is no state after the call to describe. `PollsWithoutReady` and `ConversionWithoutReadyReadsNoData` state what happens on that path: status reads forever, and no data read.
- The poll loop of lines 39-44 is written as its own method, `PollUntilReady`, which `ReadVoltage` calls. The transfers and their order are those of the single Python function.
- `Ads1119.Voltage` computes line 54 over exact reals. IEEE-754 rounding of the float result is not modelled.
- The log line (line 55) is modelled only through the value it formats, `raw_value & 0xFFFF` (`RawValueMaskRoundTrip`). Logging itself is left out.
- `RawValue` takes line 50 as NumPy 1.x does: `numpy.int16` of an out-of-range Python int wraps. NumPy 2 raises instead; see Findings. For line 51, `SwapBytes` follows NumPy 2's int16 typing, and `SwapBytesNumPy1Agrees` shows NumPy 1.x's int64 promotion gives the same value.
- The C++ proof-of-concept driver polls with a deadline and returns -1 on timeout. It also packs an input multiplexer and gain into the configuration byte. The Python driver modelled here does none of these: it has no timeout and always writes configuration 0x00. This model follows the Python code.
- `json.dumps` serialisation, `DecimalEncoder`, the MQTT client, `update_sensor_config` and `update_sensor_values` (network and I/O) are left out. So are `update_all_sensor_configs` / `update_all_sensor_values` and the `__main__` blocks. `read_pool_sensors.py` is not part of this model.
- `HomeAssistant.DiscoveryMessage` takes the optional unit and device class as `Option<string>`. The callers pass either a string or `None`, so truthiness of other Python objects is not modelled.
- `HomeAssistant.Dict` stands for a Python dict with string keys. Only the string and device values the message holds are modelled.

## Findings

| source | as written | input that shows it | evidently intended | confidence | as-written member | corrected member |
|---|---|---|---|---|---|---|
| software-python/ads1119.py:50 | `numpy.int16(word)` on the Python int that `read_word_data` returns. NumPy 2 raises `OverflowError` for any word ≥ 0x8000. | Wire bytes 0x00, 0x80 (device code +128), i.e. word 0x8000; in general every word whose second wire byte has bit 7 set | Keep the word's 16 bits as an int16 (the NumPy 1.x wrap), so that the byte swap yields the device's signed code | medium: holds under NumPy ≥ 2.0, while NumPy 1.x wraps as intended; not executed | Ads1119.NumPy2RejectsHalfTheCodes | Ads1119.RawValueDecodesWire |

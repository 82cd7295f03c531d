# SHT3x power-save sensor node, modelled in Dafny

This project models the firmware of a battery-powered ESP32 node that
measures temperature and humidity with a Sensirion SHT3x sensor. The
node wakes from deep sleep on a 30-second timer or a button. It samples the
sensor and publishes the values over MQTT. Every second wake it also
publishes a keep-alive. A button wake starts Wi-Fi provisioning over a
soft access point. An MQTT command can start an over-the-air (OTA) update,
which picks the newest firmware file from a server listing.

The modules follow the firmware's components:

| module | component |
|---|---|
| `Crc8` | the CRC-8 of the SHT3x (polynomial 0x31, initial value 0xFF), byte-wise and bit-serial |
| `Sht3xCommands` | command words, the measurement command table, measurement durations and tick conversion |
| `Sht3xFrame` | the six-byte measurement frame, its checksums, and the raw-to-physical conversion |
| `Sht3xDriver` | the driver state machine: send, read, start, running check, fetch, status, reset, init, measure |
| `Sht3xWarning` | the threshold warning code |
| `OtaVersion` | `sscanf`-style version extraction, `strtok` line splitting, latest-version choice, the download URL |
| `Mqtt` | MAC string, topics, the rolling transaction code, QoS per message, the OTA command check |
| `WifiProv` | the provisioning latch, credential handling, the fail and timeout tasks, the custom endpoint |
| `DeepSleep` | the wake cycle: wake cause, sampling, keep-alive counter, sleep-time measurement |
| `Util` | Option, `snprintf` truncation, `%02X` hex formatting and its inverse, powers of two |

Bus transfers, clocks and system calls are not executed. Each operation that
would perform one takes its outcome as a parameter:

- a `BusStatus` for an I2C write;
- a `ReadReply` for an I2C read;
- the tick counter as a 32-bit `uint32` that wraps;
- the allocation result as a boolean, where the code checks it;
- the HTTP and MQTT results as data.

Floating-point values are modelled as `real`.

The firmware has no sampling cadence, no long-press timing and no
change-only warnings, so none of these is modelled. The firmware never
publishes the warning code either: `check_warning` is called but its result
is dropped, so the model computes the code and publishes nothing for it.

## Model

| member | source | states |
|---|---|---|
| `Crc8.ComputeCrc` | components/bee_sht3x/bee_sht3x.c:351-372 | the byte-wise loop with polynomial 0x31 and start 0xFF computes the same checksum as feeding the data's bits one by one, most significant first, into the CRC register |
| `Crc8.CrcIsBitSerial` | components/bee_sht3x/bee_sht3x.c:351-372 | the checksum of every message is what a bit-serial CRC register computes when fed the message bits, most significant first |
| `Crc8.ResidueIsZero` | components/bee_sht3x/bee_sht3x.c:351-372 | appending a message's checksum makes the checksum of the whole zero |
| `Crc8.ShiftBitsLinear` | components/bee_sht3x/bee_sht3x.c:363-368 | the register update is linear over xor, which makes error detection independent of the data |
| `Crc8.WordCrcOfError` | components/bee_sht3x/bee_sht3x.c:351-372 | flipping bits of a two-byte word changes its checksum by a syndrome that depends only on the flipped bits |
| `Crc8.ErrorPatternDetected` | components/bee_sht3x/bee_sht3x.c:198-211 | any error pattern with a non-zero syndrome changes the checksum of the word |
| `Crc8.FlipInMsbDetected` | components/bee_sht3x/bee_sht3x.c:198-211 | any single-bit flip in the high byte of a word is caught by its checksum |
| `Crc8.FlipInLsbDetected` | components/bee_sht3x/bee_sht3x.c:198-211 | any single-bit flip in the low byte of a word is caught by its checksum |
| `Crc8.FlipInCrcDetected` | components/bee_sht3x/bee_sht3x.c:198-211 | any single-bit flip in the checksum byte is caught |
| `Crc8.KnownValues` | components/bee_sht3x/bee_sht3x.h:52 | the empty message gives 0xFF and 0xBEEF gives 0x92, the example of section 4.12 of the Sensirion SHT3x-DIS datasheet |
| `Sht3xCommands.CommandBytes` | components/bee_sht3x/bee_sht3x.c:262-280 | a command goes on the bus as two bytes, most significant first, whose big-endian value is the command word |
| `Sht3xCommands.CommandBytesRoundTrip` | components/bee_sht3x/bee_sht3x.c:266 | reading the two command bytes back as a big-endian word gives the command |
| `Sht3xCommands.BigEndianRoundTrip` | components/bee_sht3x/bee_sht3x.c:266 | splitting a big-endian word into bytes gives back the two bytes it was built from |
| `Sht3xCommands.HeaderAgreesWithTable` | components/bee_sht3x/bee_sht3x.h:54-68 | the corrected measurement table holds, for every periodic mode and repeatability, the command the header's byte pair defines |
| `Sht3xCommands.TableTypo` | components/bee_sht3x/bee_sht3x.c:14-20 | the table as written matches the header everywhere except periodic 4 per second at high repeatability, where it has 0x2234 instead of 0x2334; no corrected entry is 0x2234 |
| `Sht3xCommands.TypoIsTheOnlyDifference` | components/bee_sht3x/bee_sht3x.c:14-20 | the table as written and the corrected table agree on a mode and repeatability exactly when it is not periodic 4 per second at high repeatability |
| `Sht3xCommands.CommandBytesInjective` | components/bee_sht3x/bee_sht3x.c:262-280 | two command words put the same bytes on the bus exactly when they are the same word |
| `Sht3xCommands.TicksCoverDuration` | components/bee_sht3x/bee_sht3x.c:25 | the millisecond-to-tick conversion waits at least one full tick period longer than asked |
| `Sht3xCommands.TicksBounded` | components/bee_sht3x/bee_sht3x.c:25 | the conversion never waits three tick periods or more beyond the duration |
| `Sht3xCommands.MeasDurationUs` | components/bee_sht3x/bee_sht3x.c:27-34 | the microsecond table is the millisecond table times 1000 and fits in 16 bits |
| `Sht3xCommands.MeasDurationTicks` | components/bee_sht3x/bee_sht3x.c:36-39 | the tick table's entries fit in a byte and cover the measurement time plus one tick |
| `Sht3xFrame.ParseFrameBytes` | components/bee_sht3x/bee_sht3x.c:198-206 | splitting the six raw bytes into temperature and humidity triples and serialising them again is the identity, in one direction |
| `Sht3xFrame.FrameBytesOfParse` | components/bee_sht3x/bee_sht3x.c:198-206 | and in the other direction: every six-byte frame is recovered from its split |
| `Sht3xFrame.Seal` | components/bee_sht3x/bee_sht3x.c:198-211 | a word with its checksum attached is a valid value triple whose word is the original |
| `Sht3xFrame.SingleBitErrorRejected` | components/bee_sht3x/bee_sht3x.c:198-211 | a valid value triple with any one bit flipped, in any of its three bytes, fails the checksum test |
| `Sht3xFrame.CheckFrame` | components/bee_sht3x/bee_sht3x.c:198-211 | the frame check passes exactly when both triples are valid, blames temperature exactly when its triple is invalid, and blames humidity only when temperature passed |
| `Sht3xFrame.SealedFrameAccepted` | components/bee_sht3x/bee_sht3x.c:198-211 | a frame of two sealed words is always accepted |
| `Sht3xFrame.RawWord` | components/bee_sht3x/bee_sht3x.c:222-225 | the raw word is the high byte times 256 plus the low byte |
| `Sht3xFrame.Temperature` | components/bee_sht3x/bee_sht3x.c:222 | the temperature conversion stays within -45 to 130 degrees Celsius |
| `Sht3xFrame.Humidity` | components/bee_sht3x/bee_sht3x.c:225 | the humidity conversion stays within 0 to 100 percent |
| `Sht3xFrame.ConversionsStrictlyMonotone` | components/bee_sht3x/bee_sht3x.c:222-225 | a larger raw word always gives a strictly larger temperature and a strictly larger humidity |
| `Sht3xFrame.ConversionEndpoints` | components/bee_sht3x/bee_sht3x.c:222-225 | raw 0 maps to -45 degrees and 0 percent, and raw 65535 maps to 130 degrees and 100 percent |
| `Sht3xFrame.ComputeValues` | components/bee_sht3x/bee_sht3x.c:217-228 | the reading is the conversion of the two words of the frame, in range |
| `Sht3xDriver.Elapsed` | components/bee_sht3x/bee_sht3x.c:257 | the elapsed time is the difference of two tick readings modulo 2^32, correct across one wrap-around |
| `Sht3xDriver.ElapsedAfter` | components/bee_sht3x/bee_sht3x.c:257 | reading the clock k ticks after a start reports exactly k, even when the counter wrapped |
| `Sht3xDriver.SendCommand` | components/bee_sht3x/bee_sht3x.c:262-280 | the command word given is the one written to the bus; it succeeds exactly when the bus acknowledges it; a failure adds only the busy flag or the send flag and changes no setting |
| `Sht3xDriver.ReadData` | components/bee_sht3x/bee_sht3x.c:282-303 | a read succeeds exactly when the bus delivers; a failure adds only the busy flag or the read flag |
| `Sht3xDriver.IsMeasuring` | components/bee_sht3x/bee_sht3x.c:245-260 | the sensor is busy exactly when a single-shot or first periodic measurement started less than its duration ago; the error code is cleared |
| `Sht3xDriver.StartMeasurement` | components/bee_sht3x/bee_sht3x.c:124-145 | a start writes the table entry as the driver declares it, records mode, repeatability and start time and raises the running flags only when the command is acknowledged; a refused start raises the send-measure flag and leaves the running flags alone |
| `Sht3xDriver.StartSendsTypo` | components/bee_sht3x/bee_sht3x.c:124-145 | a start sends the intended command for every mode and repeatability except periodic 4 per second at high repeatability, where the bytes 0x22 0x34 go out, which are the bytes of no measurement command |
| `Sht3xDriver.GetRawData` | components/bee_sht3x/bee_sht3x.c:154-214 | a frame is returned exactly when a measurement was started and finished, the fetch and read succeeded and both checksums match; each failure leaves its own error code, and a single-shot measurement ends with the read |
| `Sht3xDriver.SingleShotFetchesOnce` | components/bee_sht3x/bee_sht3x.c:160-195 | after a successful single-shot fetch a second fetch fails without touching the bus |
| `Sht3xDriver.GetStatus` | components/bee_sht3x/bee_sht3x.c:331-348 | the status word is available exactly when command and read succeed, and is the first two bytes read, big-endian |
| `Sht3xDriver.Reset` | components/bee_sht3x/bee_sht3x.c:305-329 | a reset writes the reset command, then the status command only when the reset was acknowledged; it succeeds exactly when the reset command and the following status read succeed |
| `Sht3xDriver.InitSensor` | components/bee_sht3x/bee_sht3x.c:70-103 | initialisation yields a device exactly when the allocation and the status read succeed; the device starts idle in single-shot mode with a clear error code |
| `Sht3xDriver.Measure` | components/bee_sht3x/bee_sht3x.c:106-121 | a one-shot measurement yields a reading exactly when the start was acknowledged, the measurement time had passed, the read succeeded and the frame is valid; the reading is the frame's conversion |
| `Sht3xDriver.DelayOutlastsMeasurement` | components/bee_sht3x/bee_sht3x.c:113 | the tick delay before the fetch is at least the high-repeatability measurement time |
| `Sht3xWarning.CheckWarning` | components/bee_sht3x/bee_sht3x.h:227-244 | as the header describes the missing body: the warning code is 255 exactly when no threshold is strictly crossed; otherwise it is a 4-bit code whose set bits are exactly the crossed thresholds |
| `Sht3xWarning.RaisedByCondition` | components/bee_sht3x/bee_sht3x.h:36-41 | each warning is raised exactly when its threshold is exceeded: above 30 or below 25 degrees, above 80 or below 60 percent |
| `Sht3xWarning.BitsDistinct` | components/bee_sht3x/bee_sht3x.h:239-242 | the four warnings use four different bits |
| `Sht3xWarning.NeverHighAndLow` | components/bee_sht3x/bee_sht3x.h:36-41 | no code reports both the high and the low warning of the same quantity |
| `Sht3xWarning.HighNibbleClear` | components/bee_sht3x/bee_sht3x.h:236-242 | a warning code other than 255 has bits 4 to 7 clear |
| `OtaVersion.ScanDecimal` | components/bee_ota/bee_ota.c:50 | `%d` reads back a printed number followed by a non-digit, consuming exactly its digits |
| `OtaVersion.DecimalValue` | components/bee_ota/bee_ota.c:50 | the printed digits of a number have that number as their value |
| `OtaVersion.ParseFileName` | components/bee_ota/bee_ota.c:47-54 | a firmware file name `SHT3x_Powersave_v<major>.<minor><suffix>` parses to its major and minor, and its version number is major times 100 plus minor |
| `OtaVersion.ExtractVersion` | components/bee_ota/bee_ota.c:47-54 | a line has version -1 when it lacks the prefix, when no `%d` follows the prefix, when no dot follows the major number, or when no `%d` follows the dot; otherwise it is major times 100 plus minor as `%d` reads them |
| `OtaVersion.ScanNumeral` | components/bee_ota/bee_ota.c:50 | `%d` skips leading whitespace, takes an optional sign, and reads the whole run of digits, leading zeros included |
| `OtaVersion.ParseAnyFileName` | components/bee_ota/bee_ota.c:47-54 | a name with any whitespace, signs or leading zeros in its numbers gets major times 100 plus minor of their values |
| `OtaVersion.MissingMinor` | components/bee_ota/bee_ota.c:50-53 | a name whose dot is not followed by a number has version -1, whatever the major number |
| `OtaVersion.MissingDot` | components/bee_ota/bee_ota.c:50-53 | a name whose major number is not followed by a dot has version -1 |
| `OtaVersion.MissingMinorRejected` | components/bee_ota/bee_ota.c:50-53 | `SHT3x_Powersave_v1.bin` has version -1 |
| `OtaVersion.MissingMajorRejected` | components/bee_ota/bee_ota.c:50-53 | `SHT3x_Powersave_vX` has version -1 |
| `OtaVersion.NegativeMinorIgnored` | components/bee_ota/bee_ota.c:47-66 | `SHT3x_Powersave_v0.-1.bin` is converted but has version -1, the value of a line that names no file |
| `OtaVersion.VersionOrder` | components/bee_ota/bee_ota.c:51 | with minor versions below 100, comparing version numbers is comparing (major, minor) lexicographically, and equal numbers mean equal versions |
| `OtaVersion.MinorOverflowCollides` | components/bee_ota/bee_ota.c:51 | a minor version of 100 or more collides with the next major: v1.100 and v2.0 get the same number |
| `OtaVersion.TokensOfJoin` | components/bee_ota/bee_ota.c:60-69 | splitting a newline-joined list of non-empty lines gives back the lines |
| `OtaVersion.SurroundingNewlinesSkipped` | components/bee_ota/bee_ota.c:60-69 | leading and trailing newlines produce no tokens |
| `OtaVersion.LatestOf` | components/bee_ota/bee_ota.c:56-71 | the choice is absent exactly when no line has a version above -1, and otherwise is the first line holding the greatest version |
| `OtaVersion.FirstGreatestUnique` | components/bee_ota/bee_ota.c:63-66 | the first position of the greatest version is unique, so the strict comparison determines the choice |
| `OtaVersion.FindLatestVersion` | components/bee_ota/bee_ota.c:56-71 | the latest version of a listing is the first line with the greatest version number, and there is none when no line names a firmware file |
| `OtaVersion.DownloadUrl` | components/bee_ota/bee_ota.c:98-99 | the URL is server plus file name truncated to 255 characters, untruncated exactly when it fits |
| `OtaVersion.PlanOta` | components/bee_ota/bee_ota.c:73-144 | the update ends on a failed request exactly when the request fails, on an empty response exactly when a successful request has no positive content length, and with no OTA file exactly when no line has a version above -1; a download happens exactly when the request succeeds with content and some line has a version above -1, and it fetches the URL of the first line with the greatest version |
| `Util.Bounded` | components/bee_wifi/bee_wifi.c:65-66 | `snprintf` into a buffer of n bytes keeps a prefix of at most n-1 characters, and the whole text exactly when it fits |
| `Util.ParseHexString` | components/bee_mqtt/bee_mqtt.c:118 | reading back the upper-case `%02X` text of bytes gives the bytes |
| `Util.HexStringOfParse` | components/bee_mqtt/bee_mqtt.c:118 | and every readable hex text is the formatting of what it reads as |
| `Mqtt.MacString` | components/bee_mqtt/bee_mqtt.c:118 | the MAC string is 12 upper-case hex digits that read back as the six MAC bytes |
| `Mqtt.TelemetryTopic` | components/bee_mqtt/bee_mqtt.c:119 | the publish topic is the root, the MAC string and `/telemetry`, and fits the 64-byte buffer |
| `Mqtt.CommandTopic` | components/bee_mqtt/bee_mqtt.c:56 | the subscribe topic is the root, the MAC string and `/Command`, and fits the 64-byte buffer |
| `Mqtt.TopicsIdentifyDevice` | components/bee_mqtt/bee_mqtt.c:118-119 | two devices with the same telemetry topic have the same MAC |
| `Mqtt.QosOf` | components/bee_mqtt/bee_mqtt.c:126-190 | warnings and OTA status are sent at least once; telemetry and keep-alives at most once |
| `Mqtt.Publish` | components/bee_mqtt/bee_mqtt.c:126-141 | a publish appends one message stamped with the current transaction code and advances the code modulo 256 |
| `Mqtt.TransCodesCount` | components/bee_mqtt/bee_mqtt.c:134 | publishing n messages appends them in order, stamped with consecutive codes modulo 256, and advances the code by n modulo 256 |
| `Mqtt.CodesDistinctWithinWindow` | components/bee_mqtt/bee_mqtt.c:29 | any two of fewer than 257 consecutive messages carry different transaction codes |
| `Mqtt.OnConnected` | components/bee_mqtt/bee_mqtt.c:52-59 | the node subscribes on connect exactly when the button task is running, to its command topic |
| `Mqtt.AcceptsOnlyOffers` | components/bee_mqtt/bee_mqtt.c:213-217 | a command is accepted exactly when it is an OTA offer for this device's MAC with a version above 1.0 |
| `Mqtt.OnReceive` | components/bee_mqtt/bee_mqtt.c:198-233 | an accepted command starts the update from its URL; a timeout or any other complete command restarts; JSON lacking a field the listener reads crashes; exactly the messages that are not JSON are ignored |
| `Mqtt.Responses` | components/bee_mqtt/bee_mqtt.c:196-234 | the reference for the listener: the action for every message that has one, in order, and none exactly when every message is ignored |
| `Mqtt.RxTask` | components/bee_mqtt/bee_mqtt.c:192-235 | the task first publishes `Check_ota`; its actions are the responses to the messages in order, up to and including the first restart or crash, and it takes none exactly when every message is ignored |
| `Mqtt.Listen` | components/bee_mqtt/bee_mqtt.c:196-234 | the listener's actions are a prefix of the responses that stops only at a restart or crash, with update starts before it |
| `Mqtt.MalformedCrashes` | components/bee_mqtt/bee_mqtt.c:201-211 | JSON without the expected fields ends the task in a crash, while text that is not JSON is skipped |
| `Mqtt.SilenceRestarts` | components/bee_mqtt/bee_mqtt.c:229-233 | fifteen seconds without a command restart the device |
| `Mqtt.OfferHandled` | components/bee_mqtt/bee_mqtt.c:213-225 | an offer for this device starts the update when its version is above 1.0 and restarts otherwise |
| `WifiProv.ServiceName` | components/bee_wifi/bee_wifi.c:151-158 | the service name is `BEE_` and the last three MAC bytes in hex, 10 characters, fitting the 12-byte buffer |
| `WifiProv.ServiceNamesCollide` | components/bee_wifi/bee_wifi.c:156-157 | two devices get the same service name exactly when their last three MAC bytes agree |
| `WifiProv.StartProvisioning` | components/bee_wifi/bee_wifi.c:273-300 | provisioning starts, latches and creates the timeout task only when not already latched; otherwise nothing changes |
| `WifiProv.OnProvEvent` | components/bee_wifi/bee_wifi.c:48-110 | received credentials are kept truncated to 31 and 63 characters; a failure replaces the timeout task by a fail task; a success stores the credentials and ends both tasks; only the end event clears the latch |
| `WifiProv.FailTaskReplaced` | components/bee_wifi/bee_wifi.c:70-89 | after a credential failure a fresh fail task runs, different from any task before |
| `WifiProv.OnWifiEvent` | components/bee_wifi/bee_wifi.c:111-138 | station start and disconnect each request one connection, an IP address marks the node connected, and no provisioning state changes |
| `WifiProv.ReconnectOldWifi` | components/bee_wifi/bee_wifi.c:160-186 | the stored network is started only when its SSID is non-empty; otherwise nothing changes |
| `WifiProv.TimeoutTaskExpires` | components/bee_wifi/bee_wifi.c:307-315 | the timeout task ends itself and reconnects to the stored network; it leaves the latch alone, which the manager's later `WIFI_PROV_END` clears |
| `WifiProv.FailTaskExpires` | components/bee_wifi/bee_wifi.c:319-331 | the fail task ends itself and reconnects to the stored network; it leaves the latch alone, which the manager's later `WIFI_PROV_END` clears |
| `WifiProv.LatchRule` | components/bee_wifi/bee_wifi.c:102-106 | after any run the latch is set exactly when a provisioning request came after the last end event, or it was set and no end event came |
| `WifiProv.StoredOnlyOnSuccess` | components/bee_wifi/bee_wifi.c:90-101 | the stored credentials change only on a credential success, and then to the credentials received |
| `WifiProv.Run` | components/bee_wifi/bee_wifi.c:48-139 | every run of events keeps the received and stored credentials within their buffers and every live task handle below the next handle to be issued |
| `WifiProv.CustomDataReply` | components/bee_wifi/bee_wifi.c:203-219 | the endpoint fails with out-of-memory exactly when the copy cannot be allocated; otherwise it replies `SUCCESS` with its terminator, 8 bytes |
| `WifiProv.TerminatedString` | components/bee_wifi/bee_wifi.c:210-217 | a string without NUL followed by a terminator reads back as itself |
| `DeepSleep.ButtonPinWake` | components/bee_deep_sleep/bee_deep_sleep.c:65-72 | a wake through the registered EXT1 mask, which selects only the button GPIO, reports the button pin and starts provisioning under the device service name |
| `DeepSleep.KeepAliveStep` | components/bee_deep_sleep/bee_deep_sleep.c:55-63 | the counter alternates between 0 and 1 and a keep-alive is sent exactly when it was 1 |
| `DeepSleep.SendKeepAlive` | components/bee_deep_sleep/bee_deep_sleep.c:55-63 | from counter 1 a keep-alive is published and the counter returns to 0; from counter 0 nothing is published and the counter becomes 1; the counter always stays below 2 |
| `DeepSleep.EveryOtherWake` | components/bee_deep_sleep/bee_deep_sleep.c:22 | over n wakes the counter ends at (start + n) mod 2 and (start + n) div 2 keep-alives are sent |
| `DeepSleep.SendData` | components/bee_deep_sleep/bee_deep_sleep.c:32-53 | an init failure raises the status flag and checks the old values; a good measurement clears it and publishes temperature then humidity; a failed measurement changes nothing |
| `DeepSleep.TelemetryOnlyFromValidFrames` | components/bee_deep_sleep/bee_deep_sleep.c:38-44 | telemetry is published exactly when the sensor was initialised and a started, completed measurement returned a valid frame; the values are that frame's, in range, with two consecutive transaction codes |
| `DeepSleep.MeasureFailureIsSilent` | components/bee_deep_sleep/bee_deep_sleep.c:38-45 | a refused measurement start leaves status, reading and publisher unchanged |
| `DeepSleep.LowestSetBit` | components/bee_deep_sleep/bee_deep_sleep.c:91 | the reported pin is the lowest set bit of the wake mask |
| `DeepSleep.SinglePinReported` | components/bee_deep_sleep/bee_deep_sleep.c:89-92 | a mask with only one pin set reports that pin |
| `DeepSleep.OnWake` | components/bee_deep_sleep/bee_deep_sleep.c:80-104 | a button wake with a non-zero mask reports the lowest pin and starts provisioning; every other wake changes nothing |
| `DeepSleep.TruncDiv` | components/bee_deep_sleep/bee_deep_sleep.c:78 | the quotient leaves a remainder with the sign of the dividend and smaller in size than the divisor, as C division toward zero does |
| `DeepSleep.SleepTimeAccurate` | components/bee_deep_sleep/bee_deep_sleep.c:78 | the measured sleep time in milliseconds is within one millisecond of the true elapsed time |
| `DeepSleep.Reboot` | components/bee_deep_sleep/bee_deep_sleep.c:20-30 | the reboot that ends deep sleep keeps the RTC keep-alive counter, sleep entry time and transaction code and the NVS credentials, and zeroes the sensor status, the reading, the provisioning latch and the task handles |
| `DeepSleep.Wake` | components/bee_deep_sleep/bee_deep_sleep.c:74-132 | a wake measures the sleep time, and sleeps again, recording the sleep time, only once the latch is clear; the stored credentials change only on a button wake |
| `DeepSleep.LatchedExactlyOnButton` | components/bee_deep_sleep/bee_deep_sleep.c:88-115 | since the reboot clears the latch, a wake is latched exactly when it is an EXT1 wake with a non-zero pin mask |
| `DeepSleep.LatchBlocksSampling` | components/bee_deep_sleep/bee_deep_sleep.c:108-115 | while provisioning is latched, no sample, telemetry or keep-alive happens, and status and reading stay at the zeroes the reboot left |
| `DeepSleep.ButtonWakeBlocksSampling` | components/bee_deep_sleep/bee_deep_sleep.c:88-115 | a button wake always latches provisioning, so it publishes nothing |
| `DeepSleep.SampleThenKeepAlive` | components/bee_deep_sleep/bee_deep_sleep.c:116-123 | without a button wake, the wake samples starting from the zeroed status and reading, then counts towards the keep-alive, then sleeps |

## Left out

- I2C transfers, the tick counter, `gettimeofday`, memory allocation, HTTP, MQTT, Wi-Fi and NVS are not executed; their outcomes are parameters of the operations that use them, except the one unchecked allocation named under `OtaVersion.PlanOta` below.
- FreeRTOS tasks, queues and delays and the button interrupt are reduced to their effects. The waiting loops of `cnt_timeout` and of the deep-sleep latch are a single step: a task "expires", and a latched wake does not sleep.
- Floating point: temperatures, humidities and the OTA version are `real`, so `float` rounding is not modelled.
- cJSON encoding and parsing: a received message is modelled as already parsed, as not JSON, or as JSON lacking a field the listener dereferences (which crashes the device). The JSON text of outgoing messages is not modelled.
- The firmware image download and `esp_https_ota` are not modelled; the model stops at the download URL.
- `wifi_init_func`, the LED and LEDC drivers, the button driver, NVS storage and `main` are not modelled. NVS is a `stored` credential pair.
- The heater commands, the periodic-mode `sht3x_start_measurement` callers and the wrappers around `sht3x_measure` are not part of the firmware's wake cycle. Periodic modes are modelled in the driver, and the heater is not.
- `SHT3x_ADDR_1` is not defined in any file that is part of this model; the sensor's default address 0x44 is used.
- Cross-file inconsistencies are not resolved. `bProv` is `static` in the Wi-Fi file but `extern` in the deep-sleep file; the model treats it as one flag. The deep-sleep file calls `pub_data` with a name and one value and calls `check_warning()` without arguments. The model publishes one named value per call and computes the warning code from the current reading.
- `Sht3xDriver.GetStatus`: the checksum of the status word is read but not checked, as in the code.
- `OtaVersion.ScanInt`: integers are unbounded, so the undefined behaviour of `%d` on overflow and of `major * 100 + minor` beyond `int` is not modelled.
- `DeepSleep.SleepTimeMs`: computed on unbounded integers. The `int` overflow after about 24 days of sleep is not modelled.
- The HTTP body length limit and a partial read of the listing are not modelled; the listing is the whole response.
- `deep_sleep_register_rtc_timer_wakeup` and the EXT1 registration are configuration of the sleep hardware: the 30-second period is not modelled, and the wake cause and pin mask the hardware reports are inputs of `DeepSleep.Wake`.
- A failed NVS load in `reconnect_old_wifi` is modelled as an empty stored SSID.
- `Sht3xWarning.CheckWarning`: `check_warning` is declared at bee_sht3x.h:244 but no source file gives its body. The model follows the header's description of the code, and its boundary semantics are a choice: the comparisons are strict, so a reading of exactly 30 °C, 25 °C, 80 % or 60 % raises nothing.
- `OtaVersion.PlanOta`: `malloc(response_len + 1)` at bee_ota.c:90 is not checked, and bee_ota.c:92 writes through the result. A failed allocation there crashes the device, and the model does not represent that outcome: it assumes the allocation succeeds.

## Findings

| source | as written | input that shows it | evidently intended | confidence | as-written member | corrected member |
|---|---|---|---|---|---|---|
| components/bee_sht3x/bee_sht3x.c:19 | the command table holds 0x2234 for 4 measurements per second at high repeatability | a periodic start with 4 measurements per second and high repeatability sends 0x2234, which is no SHT3x command | 0x2334, as the header's byte pair `{0x23, 0x34}` at bee_sht3x.h:63 says | high; not executed | `Sht3xCommands.TableTypo`, `Sht3xDriver.StartSendsTypo` | `Sht3xCommands.HeaderAgreesWithTable` |

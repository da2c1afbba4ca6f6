# OneWifiTestSuite: message broker, station keys and station table

A Dafny 4.11 model of the executable core of the test suite's agents, with proofs. `dafny verify dfyconfig.toml` checks all of it.

- **Collection, HashMap.** The linked queue and the flat map of `src/utils/collection.c`, as classes over linked nodes. Elements enter at the head and are popped from the tail; counts and indices are 32-bit and wrap. A map lookup compares only the first `strlen(key)` characters and takes the newest match.
- **Broker, BrokerRuns, BrokerRefinement, BrokerHeap, BrokerGuarantees, BrokerObjects.** `subscribe`, `unsubscribe` and `queue_msg` over test and message objects, proved against functions on the list of listings; a state machine over numbered tests and messages, which every sequence of operations on the objects follows, object for object; then what holds over every run of it. The gateway's `src/messages/wlan_emu_msg_mgr.cpp` is line for line the same broker.
- **FanOutRace, FanOutCopies, UnsubscribeRace, BrokerRace.** `queue_msg`, and the scan of `unsubscribe`, cut into one step per index, with any operations on the list between the steps: first on lists, then the same steps performed on the broker's objects.
- **Decimal, Keys.** `%d` output and input, `snprintf` into a buffer of any size, `sscanf`, and the two kinds of station key. `sta_key_t` is declared outside the repository, so the buffer size is a parameter.
- **Stations, StationTable, StationSweep, StationRuns, StationObjects.** The device table and the station map of the two station managers: finding the devices, adding, removing by key, and removing all stations of a test; then what holds over every run of these, and that the managers, under any sequence of operations from `init` on, follow the run.

Results on where the code falls short, each with its exact condition:

- A publication serves every listing exactly when there are fewer than 2^32 (`EveryListingServedIff`).
- During a fan-out the loop completes exactly when at every peek the cancellations so far leave the list longer than the index (`CompletesIffCounts`); with cancellations only, exactly when none names a listed test before the last peek (`CompletesIffNothingRemoved`). Otherwise it dereferences NULL.
- With n subscriptions before the last peek of a fan-out, the tests listed when it began are all sent a copy per listing under every schedule exactly when n is 0 or nothing was listed (`SnapshotServedIff`); all listings but the n oldest always are (`AllButOldestServed`), and a test not subscribed meanwhile is sent, per listing, as many copies as peeks fall on its place, possibly several (`CopiesOfTest`).
- `unsubscribe`, while other tests subscribe, misses a listed test exactly when its scan stays short of the test's newest listing. It removes that listing exactly when nothing is subscribed between its peek and its removal; g subscriptions there make it cancel the listing g places newer instead (`UnsubscribeIsExactIff`). Either way it leaves the list as it was behind the newcomers, newest first, but for the one listing it removes (`UnsubscribeLeaves`).
- SSID keys of different pairs print the same full text only through the minus sign of test ids of 2^31 and above (`SsidTextsCoincideIff`, witness `SsidKeysCollide`). Cut to the buffer, the keys of all SSIDs of at most L characters and ids below 2^31 are distinct exactly when the buffer has at least L + 12 characters (`SsidKeysInjectiveIff`), those of one SSID and all 32-bit ids exactly from L + 13 on (`OneSsidKeysInjectiveIff`), and those of all SSIDs and all ids never, unless L is 0 (`AllSsidKeysInjectiveIff`).
- Removing by key takes another station away exactly when a newer one prints like the requested station as far as the key goes; for a key that fits as a whole, when a newer station of the same test has a device number that continues the requested one (`RemovesExactlyIff`). Over every run of either manager, for the stations of all its devices, on file or not, this cannot happen exactly when there are no devices, one device and a key buffer of at least 12 characters, or at most ten devices and at least 14 (`EveryRemovalIsExactIff`); for stations on file alone one device needs only 2 characters (`EveryRemovalOnFileIsExactIff`).
- The gateway's `add_sta` keeps devices busy for clients it fails to bring up: none exactly when there are no clients or no free devices, or a free device for every client and every client is prepared and connects; else as many as the number of free devices and the clients' outcomes say (`ClientsAddedKeepsSound`). And no later operation returns them (`LostDevicesStayLost`).
- `remove_all_sta` dereferences NULL exactly when the oldest station on file belongs to the test. Up to there it removes exactly the test's stations if and only if no key, cut within the test id, finds a newer station of another test; otherwise a station stays on file whose device is free (`SweepIsExactIff`). No run of the gateway's manager meets such a sweep exactly when there are at most two devices or the key buffer has at least 12 characters (`EveryRunIsSoundIff`).

Assumed: each queue operation happens at once; `push_msg` does not call back into the broker; passing an `unsigned int` to `%d` reads it as two's complement; strings hold no NUL character.

## Model

| member | source | states |
|---|---|---|
| Collection.Queue.Push | src/utils/collection.c:40-60 | the new element is the first of the contents; the chain of nodes stays well formed |
| Collection.Queue.Pop | src/utils/collection.c:62-88 | the last element is taken off, NULL on an empty queue |
| Collection.Queue.Remove | src/utils/collection.c:90-122 | exactly the element `queue_peek` finds at that index is taken out, the rest keeps its order; nothing happens out of range, in uint32 arithmetic |
| Collection.Queue.Peek | src/utils/collection.c:124-147 | the element at that distance from the head, or NULL exactly when the index exceeds count - 1 in uint32 arithmetic or the queue is empty |
| Collection.Queue.Count | src/utils/collection.c:149-166 | the number of elements modulo 2^32 |
| Collection.PerformOps | src/utils/collection.c:40-88 | any sequence of pushes and pops on a new queue leaves the contents, and pops the elements, of the run |
| Collection.FirstInFirstOut | src/utils/collection.c:40-88 | in every run of pushes and pops, what was popped followed by what remains, oldest first, is what was pushed |
| HashMap.HashMap.Put | src/utils/collection.c:187-201 | the pair becomes the newest entry; older entries stay, also under the same key |
| HashMap.HashMap.Get | src/utils/collection.c:203-227 | the value of the newest entry whose key starts with the requested one, among those a 32-bit count lets the loop visit |
| HashMap.HashMap.Remove | src/utils/collection.c:229-265 | removes and returns exactly the entry `hash_map_get` would find |
| HashMap.HashMap.GetFirst | src/utils/collection.c:267-277 | the newest value, NULL on an empty map |
| HashMap.HashMap.GetNext | src/utils/collection.c:279-304 | the value after the first place the given value is held |
| HashMap.WalkEndsIff | src/utils/collection.c:267-304 | a walk by get_first and get_next ends exactly when no value is on file twice |
| HashMap.WalkVisitsAll | src/utils/collection.c:267-304 | with distinct values the walk visits every entry once, in order, and then stops |
| HashMap.LookupIsExactIff | src/utils/collection.c:203-265 | with distinct keys and values, get and remove reach the entry with the requested key exactly when no newer key merely starts with it |
| Broker.TestCase.PushMsg | src/external_agent_cci/wlan_ext_emu_tests.cpp:365-373 | the message joins the end of the test's queue |
| Broker.TestCase.PopMsg | src/external_agent_cci/wlan_ext_emu_tests.cpp:213-224 | the oldest message is taken, NULL when the 32-bit count is 0 |
| Broker.Message.Copy | src/messages/wlan_emu_msg.cpp:599-602 | the copy holds the same message data; nothing is said of its name |
| Broker.MsgManager.constructor | src/external_agent_cci/wlan_ext_emu_msg_mgr.cpp:72-75 | no test is listed |
| Broker.MsgManager.Subscribe | src/external_agent_cci/wlan_ext_emu_msg_mgr.cpp:29-32 | the test is listed once more, in front |
| Broker.MsgManager.Unsubscribe | src/external_agent_cci/wlan_ext_emu_msg_mgr.cpp:34-47 | the list loses the first listing of the test that the scan meets, and nothing else |
| Broker.MsgManager.QueueMsg | src/external_agent_cci/wlan_ext_emu_msg_mgr.cpp:49-60 | each listed test's queue grows by its own copies in list order, one per listing, also when it is listed repeatedly; copies are fresh, pairwise distinct and hold the published data; the published message, the list and all other queues are unchanged |
| BrokerRefinement.Perform | src/external_agent_cci/wlan_ext_emu_msg_mgr.cpp:29-60 | each operation on broker and test objects takes list, queues, message objects and their contents exactly where one step of the numbered state machine says; every number is one object and every object made a new one; a pop returns the object that machine has in front |
| BrokerHeap.PerformAll | src/external_agent_cci/wlan_ext_emu_msg_mgr.cpp:29-60 | any sequence of operations on the objects ends in the state, and with the published and popped messages, of the run from the initial state |
| BrokerHeap.Exercise | src/external_agent_cci/wlan_ext_emu_msg_mgr.cpp:49-60 | a new broker and new tests under any sequence of operations: what each test popped and has waiting is its history in the run, object by object, and every message object made was either published or handed to one test, once; no two places hold the same object |
| BrokerHeap.HandedHeld | src/external_agent_cci/wlan_ext_emu_msg_mgr.cpp:56-59 | why: at the end of a run distinct objects in numbered places are at one place each |
| BrokerRefinement.DeliveredHolds | src/external_agent_cci/wlan_ext_emu_msg_mgr.cpp:54-59 | handing out copies to test objects and to their numbers gives corresponding queues |
| BrokerRuns.RunRefinesView | src/external_agent_cci/wlan_ext_emu_msg_mgr.cpp:29-60 | every run on the shared list that at no moment has 2^32 listings, seen by one test, is a run of a machine that knows only how often that test is listed |
| BrokerRuns.UnlistedAsBag | src/external_agent_cci/wlan_ext_emu_msg_mgr.cpp:34-47 | as a bag, the list loses one listing of the test if it has one |
| BrokerGuarantees.ListedExactly | src/external_agent_cci/wlan_ext_emu_msg_mgr.cpp:29-47 | in every run a test is listed (subscriptions less cancellations) less the least value of that difference along the way |
| BrokerGuarantees.LowestIsMinimum | src/external_agent_cci/wlan_ext_emu_msg_mgr.cpp:29-47 | that least value is the minimum over all prefixes of the run, the empty one included |
| BrokerGuarantees.ExactDelivery | src/external_agent_cci/wlan_ext_emu_msg_mgr.cpp:29-60 | in every run from every state, what a test has popped and what waits for it are, in publication order, the published contents, each as often as the test's own subscriptions had it listed then |
| BrokerGuarantees.OtherTestsDoNotInterfere | src/external_agent_cci/wlan_ext_emu_msg_mgr.cpp:29-60 | from every state: deleting all subscriptions, cancellations and pops of other tests from a run changes nothing a test sees, as long as neither run reaches 2^32 listings |
| BrokerGuarantees.OtherTestsNeverInterfere | src/external_agent_cci/wlan_ext_emu_msg_mgr.cpp:29-60 | from the initial state, the run itself staying below 2^32 listings is enough |
| BrokerGuarantees.ListIsABag | src/external_agent_cci/wlan_ext_emu_msg_mgr.cpp:29-60 | brokers whose lists are permutations of each other stay so and give every test the same contents under the same further run |
| BrokerGuarantees.EveryListingServedIff | src/external_agent_cci/wlan_ext_emu_msg_mgr.cpp:49-60 | a publication brings every test one copy per listing exactly when there are fewer than 2^32 listings; at 2^32 the count is 0 and nobody receives anything |
| BrokerObjects.NoObjectSharedOrLost | src/external_agent_cci/wlan_ext_emu_msg_mgr.cpp:56-59 | in every run of the state machine, of any length, every message identity is either published or at one place of one test's history, and never at two; `BrokerHeap.Exercise` says it of the objects |
| BrokerObjects.DeliveriesAreFinal | src/external_agent_cci/wlan_ext_emu_msg_mgr.cpp:49-60 | what a test was handed stays, in place and contents, through every further run |
| BrokerObjects.CopiesAreConserved | src/external_agent_cci/wlan_ext_emu_msg_mgr.cpp:49-60 | objects made = publications + listings visited, and the tests together were handed exactly as many as listings were visited |
| FanOutRace.CancellationIs | src/external_agent_cci/wlan_ext_emu_msg_mgr.cpp:34-47 | below 2^32 listings a cancellation shortens the list exactly when the test is listed; as a bag the list loses one listing of it, its newest, and the rest keeps its order |
| BrokerRace.DoOps | src/external_agent_cci/wlan_ext_emu_msg_mgr.cpp:29-47 | any sequence of `subscribe` and `unsubscribe` on the broker object makes of its list what the operations make of a list |
| BrokerRace.QueueMsgBetween | src/external_agent_cci/wlan_ext_emu_msg_mgr.cpp:49-60 | the loop on the broker's objects, with any such operations before each peek: it sends the copies, or ends in a NULL dereference, as the function on lists says; each test's queue grows by its share of fresh, distinct copies of the data, and the list is what the operations made of it |
| BrokerRace.UnsubscribeBetween | src/external_agent_cci/wlan_ext_emu_msg_mgr.cpp:34-47 | the scan on the broker object, with any operations before each peek and before the removal, finds, removes and leaves what the function on lists says |
| FanOutRace.CompletesIff | src/external_agent_cci/wlan_ext_emu_msg_mgr.cpp:49-60 | under every interleaving the loop completes exactly when each peek finds a test, and then sent exactly count copies; otherwise NULL is dereferenced at the first index whose peek finds nothing, after as many copies; the k-th copy went to the test found at k |
| FanOutRace.CompletesIffCounts | src/external_agent_cci/wlan_ext_emu_msg_mgr.cpp:54-59 | below 2^32 listings the loop completes exactly when at each peek the cancellations that found their test listed, plus the index, stay below the first length plus the insertions |
| FanOutRace.CompletesUnderGrowth | src/external_agent_cci/wlan_ext_emu_msg_mgr.cpp:54-59 | so no peek misses while the cancellations that found their test listed never exceed the insertions |
| FanOutRace.CompletesIffNothingRemoved | src/external_agent_cci/wlan_ext_emu_msg_mgr.cpp:54-59 | with cancellations only, the loop completes exactly when none before the last peek names a listed test, and then serves the list as it was |
| FanOutRace.SentToPlace | src/external_agent_cci/wlan_ext_emu_msg_mgr.cpp:54-59 | with subscriptions only, the k-th copy goes to the snapshot's place k less the subscriptions so far |
| FanOutRace.SnapshotServedIff | src/external_agent_cci/wlan_ext_emu_msg_mgr.cpp:54-59 | for every list and n: every schedule of subscriptions with n of them before the last peek sends each test at least as many copies as it had listings, if and only if n is 0 or the list empty |
| FanOutRace.AllButOldestServed | src/external_agent_cci/wlan_ext_emu_msg_mgr.cpp:54-59 | under every such schedule all listings but the n oldest are sent a copy each |
| FanOutCopies.CopiesOfTest | src/external_agent_cci/wlan_ext_emu_msg_mgr.cpp:54-59 | a test not subscribed meanwhile, listed any number of times, is sent exactly as many copies as peeks fall on the places of its listings |
| FanOutCopies.TestServedIff | src/external_agent_cci/wlan_ext_emu_msg_mgr.cpp:54-59 | and a copy at all exactly when one of them is among the places passed |
| FanOutCopies.CopiesOfListing | src/external_agent_cci/wlan_ext_emu_msg_mgr.cpp:54-59 | the case of a single listing |
| UnsubscribeRace.UnsubscribeIsExactIff | src/external_agent_cci/wlan_ext_emu_msg_mgr.cpp:34-47 | while other tests subscribe: the scan misses the test exactly when its front stays short of the test's newest listing; what it removes is the test's exactly when nothing was subscribed between peek and removal, and otherwise the listing that many places newer |
| UnsubscribeRace.UnsubscribeLeaves | src/external_agent_cci/wlan_ext_emu_msg_mgr.cpp:34-47 | the list left behind: after a miss, the first list behind exactly the tests subscribed meanwhile, newest first; otherwise that of the moment of removal without the one listing at the index of the first hit, all others in order |
| UnsubscribeRace.AloneIsUnlisted | src/external_agent_cci/wlan_ext_emu_msg_mgr.cpp:34-47 | with nothing in between it is the `unsubscribe` of the broker |
| FanOutRace.ServedIffPassed | src/external_agent_cci/wlan_ext_emu_msg_mgr.cpp:54-59 | a place of the first list is peeked at exactly when it lies before the furthest place reached; none is skipped |
| Keys.Snprintf | inc/wlan_emu_real_sta_mgr.h:9 | the buffer holds, as a C string, the text cut to one character less than its size; characters behind the NUL are untouched |
| Decimal.FormatDIs | inc/wlan_emu_real_sta_mgr.h:9 | what `%d` prints of an unsigned int: a minus sign exactly from 2^31 on, no leading zero, as many characters as the magnitude has decimal places, and at each the character of "0123456789" for the digit there |
| Decimal.PlaceIs | inc/wlan_emu_real_sta_mgr.h:9 | the digit at place p is n / 10^p mod 10 |
| Decimal.ScanDIs | src/external_agent_cci/ext_inc/wlan_ext_emu_sta_mgr.h:42-61 | what `%d` reads of any text: white space, one sign of either kind, all the digits that follow; nothing is assigned without a digit |
| Keys.CreateSsidKey | inc/wlan_emu_real_sta_mgr.h:7-10 | the key buffer holds `<ssid>-<id>` if that fits, else as much of it as leaves room for the NUL |
| Keys.SsidTextsCoincideIff | inc/wlan_emu_real_sta_mgr.h:7-10 | over all SSIDs and all 32-bit ids, two texts are equal exactly for equal pairs or when a minus sign is shared between the end of one SSID and a negative id |
| Keys.SsidKeysCoincideIff | inc/wlan_emu_real_sta_mgr.h:7-10 | when one key leaves room in the buffer, or neither is cut, two keys are equal exactly when the full texts are; ids below 2^31, or one SSID, are then told apart |
| Keys.SsidKeysInjectiveIff | inc/wlan_emu_real_sta_mgr.h:7-10 | keys of all SSIDs up to a length and all ids below 2^31 are pairwise distinct exactly when the buffer has 12 characters more |
| Keys.OneSsidKeysInjectiveIff | inc/wlan_emu_real_sta_mgr.h:7-10 | keys of any one SSID up to that length and all 32-bit ids are distinct exactly when it has 13 more |
| Keys.AllSsidKeysInjectiveIff | inc/wlan_emu_real_sta_mgr.h:7-10 | keys of all SSIDs up to that length and all 32-bit ids are distinct only for the empty SSID and 13 characters |
| Keys.SsidKeysCollide | inc/wlan_emu_real_sta_mgr.h:7-10 | a family of colliding uncut keys of different SSIDs |
| Keys.SameSsidKeysCoincideIff | inc/wlan_emu_real_sta_mgr.h:9 | for one SSID, cut or not, keys coincide exactly when the SSID fills the buffer or the printed ids agree as far as they fit |
| Keys.SsidKeysFitIff | inc/wlan_emu_real_sta_mgr.h:9 | no id below 2^31 is cut exactly when the SSID has at most size - 12 characters, no 32-bit id exactly at size - 13 |
| Keys.CreateStationKey | inc/wlan_emu_sta_mgr.h:39-42 | the key buffer holds `<test>-<device>` if that fits, else as much of it as leaves room for the NUL |
| Keys.StationKeyRoundTripIff | src/external_agent_cci/ext_inc/wlan_ext_emu_sta_mgr.h:42-61 | test id, respectively device id, read back from a key is the one written exactly when its digits fit, for every buffer size and all 32-bit ids |
| Keys.StationTextPrefixIff | inc/wlan_emu_sta_mgr.h:39-42 | one station key starts another exactly when the test is the same and the device number's decimal text continues |
| Keys.StationKeyPrefixIff | inc/wlan_emu_sta_mgr.h:39-42 | for every buffer size: one key, cut or whole, starts another exactly when the stations print alike as far as it goes |
| Keys.StationTextInjective | inc/wlan_emu_sta_mgr.h:39-42 | two stations never print the same full key |
| Decimal.PrintNatPrefix | inc/wlan_emu_sta_mgr.h:41 | one number's decimal text starts another's exactly when the second arises by appending digits |
| Decimal.ScanCut | inc/wlan_emu_sta_mgr.h:44-58 | a printed number cut short never reads back as that number |
| Stations.UsableIff | src/external_agent_cci/wlan_ext_emu_sta_mgr.cpp:318-388 | an interface becomes a device, once and in table order, exactly when it names a VAP, for the agent has a MAC, and no named interface up to it has a radio unknown to the driver |
| Stations.BuildDevices | src/sta/wlan_emu_sta_mgr.cpp:957-1004 | the usable interfaces become free devices, the last of them device 0; it is complete exactly when every named interface's radio is known |
| Stations.StationManager.constructor | src/sta/wlan_emu_sta_mgr.cpp:932-1009 | those devices, all free, and no station on file; success is reported exactly when all radios are known |
| Stations.StationManager.FindFirstFreeDev | src/sta/wlan_emu_sta_mgr.cpp:76-89 | the least free device, none exactly when all are in use |
| Stations.StationManager.SetDev | src/sta/wlan_emu_sta_mgr.cpp:91-103 | that device's state changes and nothing else |
| Stations.StationManager.AddSta | src/external_agent_cci/wlan_ext_emu_sta_mgr.cpp:127-251 | it succeeds exactly when a device is free and the driver connects; then there is one entry more, in front, under the key handed back, its device was the least free one and is the only one changed; otherwise nothing changes, though the key is made even when the driver then fails |
| Stations.StationManager.RemoveSta | src/external_agent_cci/wlan_ext_emu_sta_mgr.cpp:81-125 | the station the key finds is forgotten and its device free; nothing happens for an empty or unmatched key |
| Stations.StationManager.ClaimDevices | src/sta/wlan_emu_sta_mgr.cpp:718-883 | phase 1: a device per client is taken until one cannot be found or prepared |
| Stations.StationManager.ConnectClients | src/sta/wlan_emu_sta_mgr.cpp:885-929 | phase 2: connected clients are filed and their keys handed back, newest first; refused ones are skipped, and a failure to record ends it |
| Stations.StationManager.AddClients | src/sta/wlan_emu_sta_mgr.cpp:698-930 | both phases; nothing is filed unless phase 1 was complete, the keys handed back are those of the stations filed, and success is reported exactly when phase 1 was complete and no client aborts phase 2 |
| StationObjects.Perform | src/sta/wlan_emu_sta_mgr.cpp:213-930 | each operation on either manager, sweeps from a sound table, takes devices and stations exactly where one step of the run says, and ends the process exactly when that step does |
| StationObjects.PerformAll | src/sta/wlan_emu_sta_mgr.cpp:213-930 | any sequence of operations on a manager, up to a sweep from a table that an earlier sweep has spoiled, ends in the state of the run |
| StationObjects.Exercise | src/sta/wlan_emu_sta_mgr.cpp:213-1009 | the same from `init` on |
| StationObjects.ClearRunStartsSound | src/sta/wlan_emu_sta_mgr.cpp:213-248 | every run is such a sequence if its sweeps, but for the last event, are clear |
| StationRuns.AgentAddIs | src/external_agent_cci/wlan_ext_emu_sta_mgr.cpp:127-251 | in a run the agent's add leaves the table as it was exactly when the driver does not connect or no device is free; else it adds one station on the least free device |
| StationTable.ClientsAddedInOrder | src/sta/wlan_emu_sta_mgr.cpp:698-930 | phase 1 takes the least free devices in increasing order, skipping none, and changes no other; phase 2 files exactly the clients that connect before one aborts, the i-th on the i-th device taken, the last one newest; nobody if phase 1 was not complete |
| StationRuns.RunIsSoundIff | src/sta/wlan_emu_sta_mgr.cpp:213-299 | in every run, sweeps included, stations on file keep devices of their own, in use, under their own keys, as long as and only as long as every sweep is clear |
| StationRuns.LostDevicesStayLost | src/sta/wlan_emu_sta_mgr.cpp:213-299 | in every such run a device in use without a station is never given back |
| StationRuns.EveryRunIsSoundIff | src/sta/wlan_emu_sta_mgr.cpp:213-248 | every run of the gateway's manager from init leaves a sound table exactly when there are at most two devices or the key buffer has at least 12 characters; every run of the agent's does |
| StationRuns.AgentLosesNoDevice | src/external_agent_cci/wlan_ext_emu_sta_mgr.cpp:81-251 | in every run of the agent's manager the devices in use are exactly those of the stations on file, whatever keys are removed |
| StationTable.ClaimedCount | src/sta/wlan_emu_sta_mgr.cpp:718-883 | phase 1 is complete exactly when there is a free device for every client and every client is prepared; it takes as many devices as are free, but no more than there are clients up to the first unprepared one |
| StationTable.ClientsAddedKeepsSound | src/sta/wlan_emu_sta_mgr.cpp:698-930 | how many devices the gateway's add loses, in terms of the free devices and the clients alone; none exactly when there are no clients or no free devices, or a device for each and all are prepared and connect |
| StationTable.ConnectedStations | src/sta/wlan_emu_sta_mgr.cpp:885-929 | phase 2 files prepared stations only, and all of them exactly when every client connects |
| StationTable.RemovesExactlyIff | src/external_agent_cci/wlan_ext_emu_sta_mgr.cpp:101-122 | for every buffer size: removing by a station's key removes that station, or nothing if absent, exactly when no newer station prints like it as far as the key goes; with a whole key, exactly when no newer station of the test has a device number continuing its own |
| StationTable.AddThenRemoveRestoresIff | src/external_agent_cci/wlan_ext_emu_sta_mgr.cpp:81-251 | removing with the key a successful add returned restores the table exactly when the buffer has at least two characters |
| StationRuns.EveryRemovalIsExactIff | src/external_agent_cci/wlan_ext_emu_sta_mgr.cpp:46-251 | for either manager: every removal after every run, of stations of its devices, on file or not, is exact if and only if there are no devices, one and a buffer of at least 12 characters, or at most ten and at least 14 |
| StationRuns.EveryRemovalOnFileIsExactIff | src/external_agent_cci/wlan_ext_emu_sta_mgr.cpp:46-251 | for either manager, of stations on file alone: no devices, one and at least 2 characters, or at most ten and at least 14 |
| StationTable.StationAndDeviceAgreeIff | src/sta/wlan_emu_sta_mgr.cpp:111-130 | for every buffer size: the station found by a key and the device parsed from it are both the requested ones exactly when the key is whole and no newer station continues it; with a whole key they agree under no other condition |
| StationSweep.RemoveAllSta | src/sta/wlan_emu_sta_mgr.cpp:213-248 | for every buffer size the sweep ends; it dereferences NULL exactly when the oldest station is the test's; exactly when it is clear, all the test's stations but that one are gone, each by its own key, and nothing else |
| StationSweep.SweepIsExactIff | src/sta/wlan_emu_sta_mgr.cpp:213-248 | the same of the loop as a function, and the table it leaves is sound exactly when the sweep is clear, and then no lost device is returned |
| StationSweep.SweptToKeepsSound | src/sta/wlan_emu_sta_mgr.cpp:213-248 | what a clear sweep leaves, completed or cut off, keeps every station its own device and key, and returns no lost device |
| StationSweep.KeptAreOthers | src/sta/wlan_emu_sta_mgr.cpp:219-247 | the entries a sweep keeps are exactly those of other tests |
| StationSweep.SweptMeans | src/sta/wlan_emu_sta_mgr.cpp:239-243 | the devices a sweep frees are exactly those of the test's stations |

## Left out

- BrokerGuarantees.ExactDelivery, ListIsABag and ListedExactly, and BrokerRuns.RunRefinesView, are stated for runs with fewer than 2^32 listings at every moment, the bound `EveryListingServedIff` shows to be exact for each publication.
- Stations.StationManager.constructor: names, indices and MAC addresses of the interfaces; only whether they name a VAP, are known to the driver and have a zero MAC enters.
- Stations.StationManager.AddSta: the unknown station model (`assert(0)`), MAC addresses, scanning, bridges and the radio; their outcome is one Boolean. An empty key result stands for a buffer left alone when no device is free.
- Stations.StationManager.AddClients: MAC addresses in the queue handed back to the caller; driver and allocation outcomes are input per client.
- StationSweep.RemoveAllSta: starts from a sound table. A sweep that is not clear deletes a station object that stays on file; `RunIsSoundIff` says when that happens, and what later operations on the dangling pointer do is not modelled. The missing-device-description branch, which the walk never takes, is not modelled.
- Stations are told apart by test and device, as every sound table does, not by address.
- FanOutRace: pointer-level tearing between two threads inside one queue operation.
- UnsubscribeRace.UnsubscribeIsExactIff: with subscriptions of other tests in between; cancellations by others during the scan, and the test subscribing itself meanwhile, are not characterised.
- Failure of `malloc` inside the queue and the map, and `free` of elements, keys and messages.
- `queue_destroy`, `hash_map_destroy` and the destructors.
- The contents of a message: an opaque value copied as a whole, pointers inside included; the message name, which the copy constructor leaves unset.
- `%d` input beyond the range of int, which no key made here contains.
- `start`, `stop`, the netlink and poll loop, locks, condition variables and timing of the test threads.
- Step scheduling of a test (`pending_steps`), the radiotap iterator, the HTTP, JSON and bus layers, and the tables of constants.

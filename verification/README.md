# A verified model of libcxlmi

libcxlmi is a C library and tool set that sends CXL Component Command Interface (CCI) commands over
MCTP, over an ioctl and to a mock. This project models its protocol core in Dafny 4.11 and proves what
that core is for. Devices, sockets, files and clocks are not modelled: whatever they answer is an input,
and the results hold for every answer.

`dafny verify dfyconfig.toml` checks the whole project.

| file | what it is about |
|---|---|
| `Wire.dfy`, `Cci.dfy` | little-endian fields, CCI headers, the check of a response |
| `Mctp.dfy` | an MCTP endpoint: arming, tunnelling, receiving, unwinding, dispatch |
| `Tunnel.dfy` | a tunnelled command ends like a direct one, along honest relays of any depth |
| `Tags.dfy` | over every run, a late reply is taken for a later command only 256 tags on |
| `List.dfy` | the intrusive list: its consistency check, insertion and removal |
| `Mock.dfy` | the mock transport refines one FIFO queue per opcode |
| `Registry.dfy` | endpoints and the descriptors they hold, over every run |
| `Dlunion.dfy`, `DlunionRuns.dfy` | the firmware download session and what every run guarantees |
| `Chunked.dfy` | Transfer FW and the DLCFG download |
| `ExtentPager.dfy` | reading the dynamic-capacity extent list page by page |
| `MediaTestLog.dfy` | the walk through the long media-test log |
| `Records.dfy` | the record counts of three list commands |
| `Delay.dfy` | the inter-command delay |
| `LdAlloc.dfy` | dumping and normalising LD allocations |
| `EccInject.dfy` | the ECC-injection command line and its request words |

Code that works by changing things is modelled by classes and methods with loops (`Mctp.Endpoint`,
`Mock.Transport`, `Registry.Context`, the list nodes, the request buffers). Pure decisions are functions.

## Where the code does not keep a promise

Each of these is proved both ways, with the exact condition, and most with a smallest failing input.

- A tunnelled command and the direct one differ exactly when the response is longer than the caller's
  buffer and its first bytes pass the direct check; for a target that answers by the protocol, when an
  overlong response reports an error: `Tunnel.AgreesIff`, `Tunnel.ProtocolAgreesIff`,
  `Tunnel.OverlongErrorDiffers`.
- A stale reply is accepted by a later command of the same shape exactly when their tag counters differ
  by a multiple of 256: `Tags.StaleReplyAcceptedIff`, `Tags.LateReplyAccepted`.
- The inter-command delay is kept for all clock readings exactly below one second: `Delay.KeepsDistanceIff`.
- A chunked transfer that returns 0 has sent the whole file exactly when its successful reads reach the
  end: `Chunked.DlcfgWholeIff`, `Chunked.FwWholeIff`, `Chunked.FailedReadReportedAsSuccess`,
  `Chunked.FwFailedReadReportedAsSuccess`.
- An MCTP endpoint whose network id equals the mock's mark 0x4D4F434B is taken for a mock. Closing it, or
  probing it on opening, follows its socket numbers as a list pointer. A run of the registry is defined
  to its end exactly when no such endpoint is opened: `Registry.RunAndFree`, `Registry.FaultingRun`.
- Normalising an LD-allocation payload twice drops the start id of an empty list, and changes nothing
  otherwise: `LdAlloc.NormalizeAgain`, `LdAlloc.EmptyListLosesStart`.
- The log walk reads on behind the last entry, because its 32-bit guard wraps, for some log of exactly
  the lengths from 2^32 - 48 on: `MediaTestLog.Walk`, `MediaTestLog.StraysIff`.
- The extent copy stays inside its two eight-extent buffers exactly when the device claims at most eight,
  and the loop around it ends exactly when an answer is refused or out of bounds or the extents reach
  the total: `ExtentPager.CopyExtents`, `ExtentPager.ShowDcExtents`, `ExtentPager.NineExtents`,
  `ExtentPager.EmptyPagesGiveNothing`.

## Model

| member | source | states |
|---|---|---|
| `Tags.TopLevelChecked` | src/cxlmi/cxlmi.c:348-406 | a datagram that is not refused is a whole message with the tag and opcode of what was sent, at any tunnel depth |
| `Cci.SanityCheckExact` | src/cxlmi/cxlmi.c:348-406 | the verdict read off the bytes: success exactly for an error-free reply of the stated and acceptable length, a code exactly when a reply states one, -1 otherwise |
| `Cci.RequestHeaderReads` | src/cxlmi/cxlmi.c:1794-1827 | what the twelve header bytes say: category, tag, opcode, 24-bit payload length, no return code, vendor status 0xabcd |
| `Mctp.UnwindDoneIff` | src/cxlmi/cxlmi.c:594-638 | unwinding succeeds exactly when every level answers its request and states the inner length, and the innermost message passes; behind good levels the innermost verdict decides |
| `Mctp.UnwindFailsAt` | src/cxlmi/cxlmi.c:715-787 | otherwise the first level out of order decides: its own code, or -1 if only the lengths disagree |
| `Mctp.Deliver` | src/cxlmi/cxlmi.c:408-456 | a send or poll error, a timeout and a failed receive all end in -1, at any depth; success fills the whole buffer |
| `Mctp.Endpoint.ArmCciRequest` | src/cxlmi/cxlmi.c:1794-1827 | over MCTP the header takes the low byte of the tag counter, and the counter moves by one; the ioctl and the mock leave both at zero and unmoved |
| `Mctp.Endpoint.BuildTunnelReq` | src/cxlmi/cxlmi.c:486-527 | byte by byte: a Tunnel Management Command under a fresh tag, with the low byte of the port or LD number and target type 0, or target type 1 for the LD pool, the inner length in two bytes, and the inner request behind |
| `Mctp.Endpoint.SendDirect` | src/cxlmi/cxlmi.c:408-456 | code and buffer are those of an exchange along the empty path; without a datagram the result is -1 and a zeroed buffer |
| `Mctp.Endpoint.SendTunnel1` | src/cxlmi/cxlmi.c:529-638 | code and buffer are those of an exchange along a one-hop path; a failure leaves the caller's buffer untouched |
| `Mctp.Endpoint.ReceiveTunnel1` | src/cxlmi/cxlmi.c:594-638 | the in-place unwinding of one level agrees with the recursive one |
| `Mctp.Endpoint.SendTunnel2` | src/cxlmi/cxlmi.c:640-787 | the same for two hops, with two fresh tags |
| `Mctp.Endpoint.ReceiveTunnel2` | src/cxlmi/cxlmi.c:715-787 | the in-place unwinding of two levels, with its three running lengths, agrees with the recursive one |
| `Mctp.Endpoint.SendCmdCci` | src/cxlmi/cxlmi.c:1144-1193 | on an MCTP endpoint, an FM-API command without FM-API, or an unknown level, is refused before anything is sent or changed; every other command is an exchange along the path its tunnel information stands for |
| `Mctp.DocumentedPaths` | src/libcxlmi.h:370-405 | where the documented tunnel specifiers lead: an LD, a switch port, an LD behind a switch port, the LD pool, or nowhere |
| `Tunnel.TunnelReqParses` | src/cxlmi/cxlmi.c:486-527 | a receiver that routes by the bytes of the request reads back the inner length and the port, LD or pool that was meant |
| `Tunnel.FitsIff` | src/cxlmi/cxlmi.c:506-522 | the length limit is exact: a nested request is one to its receiver if and only if every inner message fits 16 bits |
| `Tunnel.RoutesToOne` | src/cxlmi/cxlmi.c:515-520 | a tunnel request is for one target only, up to the low byte of its number |
| `Tunnel.PathAnswers` | src/cxlmi/cxlmi.c:486-527 | along honest relays, the nested request reaches the last device unchanged and its answer comes back wrapped once per hop |
| `Tunnel.OuterLevelPasses` | src/cxlmi/cxlmi.c:348-406 | an honest relay's wrapper passes the check of its level |
| `Tunnel.UnwindReaches` | src/cxlmi/cxlmi.c:594-638 | a nested response that fits unwinds to the verdict on the innermost one |
| `Tunnel.OverflowRefused` | src/cxlmi/cxlmi.c:348-406 | a nested response that overflows the buffer is always refused |
| `Tunnel.RelayIsHonest` | src/cxlmi/cxlmi.c:486-527 | the assumption on relays can be met, whatever a relay does with other messages |
| `Tunnel.Transparency` | src/cxlmi/cxlmi.c:529-787 | for every depth, device, request and buffer within the 16-bit tunnel lengths: same code and same response bytes as the direct command, except that an overlong response is refused |
| `Tunnel.AgreesIff` | src/cxlmi/cxlmi.c:529-787 | the tunnelled and the direct command agree if and only if the response fits the buffer, or is no reply to the request, or reports success with a cut-off length that is too short or not the stated one |
| `Tunnel.ProtocolAgreesIff` | src/cxlmi/cxlmi.c:529-787 | for a target that echoes category, tag and opcode and states its length right: they agree if and only if the response fits or reports success |
| `Tunnel.OverlongErrorDiffers` | src/cxlmi/cxlmi.c:348-406 | the smallest difference: a 13-byte error reply and a 12-byte buffer give the error directly and -1 through a tunnel |
| `Tags.NestedTags` | src/cxlmi/cxlmi.c:501-503 | the messages nested in one command carry consecutive counter values, outermost highest |
| `Tags.NestedTagsDistinct` | src/cxlmi/cxlmi.c:501-503 | so their tags are distinct |
| `Wire.ByteWeight` | tools/mbcci-sfx/cmd_logs.c:123-144 | multi-byte fields are little-endian: changing the byte at place i changes the value by 256^i times as much |
| `Tags.CounterRises` | src/cxlmi/cxlmi.c:1794-1802 | the counter behind the outermost tag rises strictly over every run |
| `Tags.NoStaleReply` | src/cxlmi/cxlmi.c:348-373 | over every run of sends, timeouts and late deliveries: an answered command took a reply whose counter differs by a multiple of 256, so a late one is at least 256 tags old |
| `Tags.StaleReplyAcceptedIff` | src/cxlmi/cxlmi.c:348-406 | a reply to one command answers another of the same shape if and only if their counters agree modulo 256 |
| `Tags.Play` | src/cxlmi/cxlmi.c:1159-1208 | an endpoint that arms and sends the commands of a run, from any counter value on, gets exactly the results that the run lemmas speak of |
| `Tags.LateReplyAccepted` | src/cxlmi/cxlmi.c:348-373 | a run of 257 commands in which the reply to the first is taken for the last one's |
| `Tags.PromptReplyAccepted` | src/cxlmi/cxlmi.c:348-406 | a reply in time is accepted |
| `List.ListCheckNode` | ccan/ccan/list/list.c:20-36 | the check ends on every finite node graph, corrupted or not, and returns the node if and only if it lies on a well-formed ring |
| `List.RingIsDistinct` | ccan/ccan/list/list.c:20-36 | no node occurs twice on a ring |
| `List.NoRevisit` | ccan/ccan/list/list.c:26-30 | the walk meets no node twice: it would need two predecessors |
| `List.RingStepsBack` | ccan/ccan/list/list.c:26-33 | on a well-formed ring the walk never meets a mismatch |
| `List.ListAdd` | ccan/ccan/list/list.h:178-209 | a ring stays a ring, with the new node second |
| `List.ListAddTail` | ccan/ccan/list/list.h:227-255 | a ring stays a ring, with the new node last |
| `List.ListDel` | ccan/ccan/list/list.h:324-333 | a ring stays a ring, without the one node and in the same order |
| `Mock.Transport.SetResponse` | src/cxlmi/mock.c:90-128 | the response joins the end of the list and the list stays well formed |
| `Mock.Transport.ClearResponses` | src/cxlmi/mock.c:130-145 | the list is empty and well formed |
| `Mock.Transport.FindResponse` | src/cxlmi/mock.c:200-215 | the first response for the opcode leaves the list, all others stay in order |
| `Mock.Transport.SendMockCmd` | src/cxlmi/mock.c:218-293 | return code, buffer if one is wanted, counters, last command and list, with and without a matching response |
| `Mock.TakeDequeues` | src/cxlmi/mock.c:200-215 | a send dequeues from its own opcode's queue and leaves every other queue alone |
| `Mock.FifoPerOpcode` | src/cxlmi/mock.c:90-215 | in every interleaving of set, clear and send: handed out followed by still waiting is what was queued since the last clear, in order |
| `Mock.NextSend` | src/cxlmi/mock.c:200-215 | the next send of an opcode gets the next response in line, and one exists exactly when more were queued than handed out |
| `Mock.Conservation` | src/cxlmi/mock.c:90-293 | queued = returned + pending + cleared, over every run |
| `Mock.Replay` | src/cxlmi/mock.c:90-293 | every run of calls on the linked list and its 32-bit counters ends as the run on values does |
| `Mock.ReplyPassesChecks` | src/cxlmi/mock.c:265-293 | the mock's response passes the MCTP checks and carries the queued code and payload |
| `Mock.ReplyBytes` | src/cxlmi/mock.c:268-286 | every byte of a response: the queued code and as much of the payload as fits, under the request's tag and opcode, and zeros |
| `Mock.NoReplyBytes` | src/cxlmi/mock.c:251-263 | every byte of the answer without a response: code 3 under the opcode, and zeros, which the MCTP checks would refuse |
| `Dlunion.FwdownloadSend` | tools/mbcci-sfx/cmd_vu_dlunion.c:154-225 | every message sits in its own unlock and lock pair on all paths; the response is the device's or cleared; the code is the device's result if the reply counts, -1 otherwise; an oversized payload is refused before the mailbox is touched |
| `Dlunion.BeginSession` | tools/mbcci-sfx/cmd_vu_dlunion.c:279-307 | each repeated BEGIN follows a busy one, a second's sleep and a clock reading in time; the loop ends exactly when that no longer holds |
| `Dlunion.SessionTurn` | tools/mbcci-sfx/cmd_vu_dlunion.c:333-436 | one turn sends the one message that the response in hand allows, or stops exactly when it cannot be made |
| `Dlunion.RunSession` | tools/mbcci-sfx/cmd_vu_dlunion.c:324-460 | the loop makes a valid trace of just the answers it heard, ends exactly when no call can follow, and returns 0 exactly on an accepted COMPLETE |
| `Dlunion.AbortSession` | tools/mbcci-sfx/cmd_vu_dlunion.c:462-471 | ABORT goes out exactly when the last state is not terminal, and behind everything else |
| `Dlunion.Download` | tools/mbcci-sfx/cmd_vu_dlunion.c:227-476 | the whole run against any environment: a valid trace of just the answers heard, ended exactly when nothing can follow and otherwise as long as there are answers; 0 exactly on success; ABORT exactly when a session was opened and the last state is not terminal |
| `DlunionRuns.BeginAnnounces` | tools/mbcci-sfx/cmd_vu_dlunion.c:249-285 | each BEGIN announces the image size and a chunk size of 2016, the partition of a union image, and by its action the SoC runtime loader |
| `DlunionRuns.BeginRepeats` | tools/mbcci-sfx/cmd_vu_dlunion.c:287-306 | a repeated BEGIN follows one refused with code 2, less than 35000 ms from the start, and a sleep of 1000 ms |
| `DlunionRuns.BeginStopsIff` | tools/mbcci-sfx/cmd_vu_dlunion.c:287-301 | no BEGIN follows exactly when the last code is not 2, or the clock fails, or 35000 ms are over |
| `DlunionRuns.EachStateItsCall` | tools/mbcci-sfx/cmd_vu_dlunion.c:324-460 | DATA answers state 1, QUERY 2, 3 or 7, FINISH 4, each after an accepted response about this image; ABORT any state but 5, 6 and 8; all name the opened session |
| `DlunionRuns.EachCallItsFields` | tools/mbcci-sfx/cmd_vu_dlunion.c:368-436 | DATA has the offset and length asked for and the next sequence number, the others nothing; QUERY alone waits, 10 ms by default and 1000 at most |
| `DlunionRuns.EverySendPaired` | tools/mbcci-sfx/cmd_vu_dlunion.c:183-190 | every message of a run, BEGIN to ABORT, sits in its own unlock and lock, unless the unlock fails |
| `DlunionRuns.AnswerCounts` | tools/mbcci-sfx/cmd_vu_dlunion.c:183-225 | code 0 exactly for a paired send with a reply of version 1, the right session and result 0; a device's result is the code; -1 otherwise |
| `DlunionRuns.OutcomeMeans` | tools/mbcci-sfx/cmd_vu_dlunion.c:309-317 | 0 exactly when a session was opened and the last response is accepted, in state 5 and about this image; ABORT exactly when one was opened and the last state is not 5, 6 or 8 |
| `DlunionRuns.EndsIff` | tools/mbcci-sfx/cmd_vu_dlunion.c:279-460 | a run is over exactly when no BEGIN can follow and an opened session is over too |
| `DlunionRuns.SessionOverIff` | tools/mbcci-sfx/cmd_vu_dlunion.c:324-460 | a session is over exactly for the listed reasons: refusal, wrong image, idle state, 300000 ms in one busy state, no clock, a repeated or invalid request, an unreadable file |
| `DlunionRuns.HearsInOrder` | tools/mbcci-sfx/cmd_vu_dlunion.c:227-476 | the run hears its environment in order, one turn a call, and all of it unless it is over |
| `DlunionRuns.DataIsFile` | tools/mbcci-sfx/cmd_vu_dlunion.c:368-404 | every DATA carries the opened session, 1 to 2016 bytes, a range inside the file and exactly the file's bytes there |
| `DlunionRuns.StoredBytesAreTheFile` | tools/mbcci-sfx/cmd_vu_dlunion.c:324-413 | no byte that a device stores at its package offset differs from the file |
| `DlunionRuns.CoveringLeavesTheFile` | tools/mbcci-sfx/cmd_vu_dlunion.c:324-413 | requests that cover the image leave the device with the whole file and nothing else |
| `DlunionRuns.SuccessiveDataDiffer` | tools/mbcci-sfx/cmd_vu_dlunion.c:374-382 | successive DATA messages never answer the same image, offset and length |
| `DlunionRuns.SequenceRises` | tools/mbcci-sfx/cmd_vu_dlunion.c:368-413 | back-to-back DATA sequence numbers rise by one modulo 2^32 |
| `DlunionRuns.SuccessTakesData` | tools/mbcci-sfx/cmd_vu_dlunion.c:309-445 | success takes at least one accepted DATA |
| `DlunionRuns.AbortIsLast` | tools/mbcci-sfx/cmd_vu_dlunion.c:462-475 | no call follows an ABORT, so there is at most one |
| `DlunionRuns.AtMost36Begins` | tools/mbcci-sfx/cmd_vu_dlunion.c:279-307 | if sleeps last, a run sends at most 36 BEGINs |
| `DlunionRuns.SinceNotAhead` | tools/mbcci-sfx/cmd_vu_dlunion.c:343-365 | a wait never starts after the reading it is compared with |
| `DlunionRuns.AtMost300000Queries` | tools/mbcci-sfx/cmd_vu_dlunion.c:343-429 | if sleeps last, an unbroken stretch of one busy state has at most 300000 QUERYs |
| `Registry.Context.EnableFmapi` | src/cxlmi/cxlmi.c:257-287 | the accounts balance, only one endpoint changes, and the flag is set exactly when the second socket is there or not needed |
| `Registry.Context.DisableFmapi` | src/cxlmi/cxlmi.c:289-307 | the second socket is closed once and the accounts balance |
| `Registry.Context.Close` | src/cxlmi/cxlmi.c:309-346 | the endpoint leaves the list and everything it held is closed; it faults exactly when the endpoint is taken for a mock |
| `Registry.Context.InitEndpoint` | src/cxlmi/cxlmi.c:192-207 | a blank endpoint at the head holds nothing |
| `Registry.Context.OpenMctp` | src/cxlmi/cxlmi.c:1219-1353 | opens exactly when the address is not open and the socket is there; a failed open leaves list and descriptors as they were; probing turns FM-API on only with its second socket, and faults exactly under the mock's mark |
| `Registry.Context.Open` | src/cxlmi/cxlmi.c:1632-1675 | opens exactly when the device is not open and nothing fails; a failed open leaves list and descriptors as they were |
| `Registry.Context.FreeCtx` | src/cxlmi/cxlmi.c:130-143 | closes everything, or faults exactly when an endpoint is taken for a mock |
| `Registry.Perform` | src/cxlmi/cxlmi.c:257-346 | one call: exactly when it faults, what it changes, and that each open descriptor stays held exactly once and no two endpoints share a target |
| `Registry.OpensUnlessPresent` | src/cxlmi/cxlmi.c:1304-1342 | an MCTP endpoint opens if its socket does and none has both its network id and its endpoint id, and then it has these; otherwise nothing changes |
| `Registry.OpensUnlessNamed` | src/cxlmi/cxlmi.c:1640-1668 | the same for a device and its name |
| `Registry.TogglesOne` | src/cxlmi/cxlmi.c:257-307 | enabling and disabling change the flag and the second socket of one endpoint and nothing else |
| `Registry.ClosesOne` | src/cxlmi/cxlmi.c:322-346 | closing takes one endpoint out and leaves the others in order |
| `Registry.HeldOnce` | src/cxlmi/cxlmi.c:309-346 | in every orderly snapshot an endpoint's sockets and file are open and no other endpoint holds them |
| `Registry.NoneTwice` | src/cxlmi/cxlmi.c:1304-1317 | no two endpoints have the same ids or the same name |
| `Registry.FaultsIff` | src/cxlmi/mock.c:44-53 | a call faults exactly if it closes an MCTP endpoint on network 0x4D4F434B, or opens one there with a probe |
| `Registry.RunAndFree` | src/cxlmi/cxlmi.c:130-346 | over every run, failed opens included: at every point of its history each open descriptor is held exactly once and no two endpoints share a target, and each step does what its call says; the run is defined to its end, with all descriptors closed, each once, if and only if no MCTP endpoint was opened under the mock's mark |
| `Registry.FaultingRun` | src/cxlmi/mock.c:130-145 | one open under the mock's mark, without a probe: the run faults when the context is freed |
| `Chunked.ChunkCount` | tools/mbcci-sfx/cmd_fw.c:194-195 | the 32-bit chunk count is exact up to 4 GiB: that many chunks start inside the file |
| `Chunked.ByteOffsetExactIff` | tools/mbcci-sfx/cmd_vu_dlcfg.c:220 | the 32-bit byte offset is the chunk's place exactly below 4 GiB |
| `Chunked.TransferFwFile` | tools/mbcci-sfx/cmd_fw.c:159-264 | for every file up to 4 GiB and every chunk size that is a multiple of 128: exact offsets in 128-byte units, contents that concatenate to the file or a prefix, FULL or INIT CONTINUE* END, nothing behind a rejected chunk, and the return code |
| `Chunked.FwStopsAtRefusal` | tools/mbcci-sfx/cmd_fw.c:83-86 | a chunk refused with any code but 0 and 1 is the last one, and its code is returned |
| `Chunked.FwGoesOn` | tools/mbcci-sfx/cmd_fw.c:234-245 | a transfer whose last code is 0 or 1 has sent the file and returns 0, or its next read failed |
| `Chunked.FwOffset` | tools/mbcci-sfx/cmd_fw.c:206-217 | the offset field of chunk k is k chunk sizes in units of 128 bytes |
| `Chunked.FwAction` | tools/mbcci-sfx/cmd_fw.c:99-108 | the action of every chunk of a complete or cut-off transfer |
| `Chunked.VuDlcfgFile` | tools/mbcci-sfx/cmd_vu_dlcfg.c:170-277 | the same for DLCFG: contiguous offsets, the file and at most three zero bytes behind it, never a stale byte of the reused buffer |
| `Chunked.DlcfgStopsAtRefusal` | tools/mbcci-sfx/cmd_vu_dlcfg.c:252-260 | a chunk refused with any code but 0 is the last one, and its code is returned |
| `Chunked.DlcfgGoesOn` | tools/mbcci-sfx/cmd_vu_dlcfg.c:241-261 | a download whose last code is 0 has sent the padded file, or its next read failed |
| `Chunked.DlcfgOffset` | tools/mbcci-sfx/cmd_vu_dlcfg.c:220-238 | the offset field of chunk k is k chunk sizes in bytes |
| `Chunked.DlcfgAction` | tools/mbcci-sfx/cmd_vu_dlcfg.c:86-95 | the action of every chunk of a complete or cut-off download |
| `Chunked.FlatAt` | tools/mbcci-sfx/cmd_vu_dlcfg.c:219-252 | chunk k carries the bytes of the transfer from there on |
| `Chunked.DlcfgWholeIff` | tools/mbcci-sfx/cmd_vu_dlcfg.c:219-277 | a download that returns 0 has sent the whole file if and only if the successful reads reach its end |
| `Chunked.FwWholeIff` | tools/mbcci-sfx/cmd_fw.c:205-264 | the same for Transfer FW |
| `Chunked.FailedReadReportedAsSuccess` | tools/mbcci-sfx/cmd_vu_dlcfg.c:241-276 | whenever the second read fails behind an accepted first chunk, 0 is returned for a cut-off file |
| `Chunked.FwFailedReadReportedAsSuccess` | tools/mbcci-sfx/cmd_fw.c:219-263 | the same for Transfer FW |
| `ExtentPager.PageCount` | src/cxlmi/commands.c:2144-2150 | a request for one to eight extents goes out unchanged, any other as a request for eight |
| `ExtentPager.CopyExtents` | src/cxlmi/commands.c:2169-2174 | the copy loop stays inside the response buffer and the caller's page if and only if the device claims at most eight extents |
| `ExtentPager.GetDcExtentList` | src/cxlmi/commands.c:2122-2177 | the count on the wire, and what becomes of a refusal, an excessive claim and a page |
| `ExtentPager.ShowDcExtents` | examples/cxl-mctp.c:367-414 | against any answers: what is shown is the claimed extents in order under consecutive indices, each request continues where the pages so far end, and the loop ends exactly when an answer is refused, claims more than eight, or the extents reach the first total |
| `ExtentPager.HonestShows` | examples/cxl-mctp.c:401-409 | for a device that answers with stretches of its list: a prefix of the list, nothing doubled or skipped |
| `ExtentPager.HonestShowsAll` | examples/cxl-mctp.c:384-410 | the total is reached exactly when the whole list has been shown |
| `ExtentPager.ProgressGives` | examples/cxl-mctp.c:384-410 | a device that always makes progress is read in at most as many pages as it has extents |
| `ExtentPager.FullPagesGive` | examples/cxl-mctp.c:384-410 | one that fills its pages is read eight extents a page |
| `ExtentPager.PagesGiveAtMost` | src/cxlmi/commands.c:2144-2150 | and no device is read faster |
| `ExtentPager.NineExtents` | src/cxlmi/commands.c:2169-2174 | a claim of nine sends the copy out of bounds |
| `ExtentPager.EmptyPagesGiveNothing` | examples/cxl-mctp.c:384-410 | a device that holds extents and returns none never reaches the total, however long it is asked |
| `MediaTestLog.PiecesTile` | tools/mbcci-sfx/cmd_logs.c:290-324 | on arbitrary bytes the entries are contiguous, disjoint, in bounds and at most 64, and less than an entry header is left over |
| `MediaTestLog.Walk` | tools/mbcci-sfx/cmd_logs.c:276-325 | for every 32-bit length: the loop reports exactly those entries, with the offset strictly rising, and then ends, or strays exactly when the last entry ends so close below 4 GiB that the guard wraps |
| `MediaTestLog.StraysIff` | tools/mbcci-sfx/cmd_logs.c:292-293 | some log of a given length leads the walk astray if and only if the length is 2^32 - 48 or more |
| `MediaTestLog.EntryRoundTrip` | tools/mbcci-sfx/cmd_logs.c:290-324 | one entry with its signatures is read back field by field |
| `MediaTestLog.LogRoundTrip` | tools/mbcci-sfx/cmd_logs.c:276-325 | a header and up to 64 entries, each with its own signature count, are recovered exactly, whatever short rest follows them |
| `Records.ClampCount` | src/cxlmi/commands.c:1442-1455 | the stepwise 16-bit clamps lose nothing and give the smallest of claim, whole records received and limit |
| `Records.BufferSizes` | src/cxlmi/commands.c:17-36 | the response buffers, and that the most records asked for are the most that fit 2048 bytes |
| `Records.LossFrom` | src/cxlmi/commands.c:1454-1455 | the 16-bit casts keep exactly the values below 2^16 |
| `Records.ReadRecords` | src/cxlmi/commands.c:1425-1463 | as many records as are claimed, asked for and wholly received, each from its own place: 16 bytes from byte 44 on for poison and scan results, 2 bytes from byte 24 on for discovery |
| `Records.RecordsOverMctp` | src/cxlmi/commands.c:1602-1643 | the same, byte for byte, from what the socket layer reports, through any number of tunnels; discovery refuses a limit over 1018 |
| `Records.DeliveredFits` | src/cxlmi/cxlmi.c:382-403 | a response that passed the checks states a payload between the minimum and the buffer |
| `Records.MockedFits` | src/cxlmi/mock.c:276-285 | and so does the mock's |
| `Records.RecordsOverMock` | src/cxlmi/commands.c:1688-1742 | the same count and the same records from the mock's response, a payload shorter than the fixed part included |
| `Delay.ShortDelay` | src/cxlmi/cxlmi.c:145-190 | below one second the sleep is a proper time and exact, also when the nanoseconds add up to exactly one second |
| `Delay.LongDelayFails` | src/cxlmi/cxlmi.c:145-190 | from one second on, some monotone clock readings break the promise |
| `Delay.KeepsDistanceIff` | src/cxlmi/cxlmi.c:145-190 | the delay is kept for all clock readings if and only if it is below one second |
| `Delay.RunKeepsDistance` | src/cxlmi/cxlmi.c:1136-1205 | over every run, each send is at least the delay after the response recorded before it |
| `LdAlloc.BuildGetRspPayload` | tools/mbcci-sfx/cmd_fm.c:98-130 | a dump holds the header and the allocation bytes, behind it nothing changes; an empty list or a short buffer is refused with the buffer untouched |
| `LdAlloc.EntriesRead` | tools/mbcci-sfx/cmd_fm.c:115-127 | each allocation reads back from its place, the first range in eight little-endian bytes and the second behind it |
| `LdAlloc.NormalizeSetPayload` | tools/mbcci-sfx/cmd_fm.c:132-178 | the in-place rewriting, in both input forms, is the function `Normalize` of the old bytes, on success and on failure |
| `LdAlloc.NormalizeExact` | tools/mbcci-sfx/cmd_fm.c:132-178 | exactly which inputs are accepted, and every byte of the result: entries kept, byte 0 the entry count |
| `LdAlloc.DumpNormalizes` | tools/mbcci-sfx/cmd_fm.c:98-178 | a dump becomes a Set request with the same start id, allocation bytes and list length |
| `LdAlloc.NormalizeAgain` | tools/mbcci-sfx/cmd_fm.c:132-178 | normalising again changes nothing, if and only if it is not an empty list with a start id and a zero last byte |
| `LdAlloc.DumpNormalizesOnce` | tools/mbcci-sfx/cmd_fm.c:98-178 | so for dumps it always changes nothing |
| `LdAlloc.EmptyListLosesStart` | tools/mbcci-sfx/cmd_fm.c:145-165 | the failing input |
| `EccInject.TakeOption` | tools/mbcci-sfx/cmd_vu_eccrmwinj.c:183-240 | conflicts and values of one option, in the order of the loop body, amount to parsing it and stepping the machine |
| `EccInject.ParseArgs` | tools/mbcci-sfx/cmd_vu_eccrmwinj.c:183-240 | the loop accepts exactly the lists of well-formed options that run without conflict |
| `EccInject.OpNames` | tools/mbcci-sfx/cmd_vu_eccrmwinj.c:95-118 | which words name which op: its number, or its name in letters of either case |
| `EccInject.ParseOptIff` | tools/mbcci-sfx/cmd_vu_eccrmwinj.c:120-153 | a name and a value are an option exactly if the name is its own and the value an op or a number in its range |
| `EccInject.OptionsIff` | tools/mbcci-sfx/cmd_vu_eccrmwinj.c:183-240 | an argument list is a list of options exactly if it spells them in order, each in two arguments |
| `EccInject.RunTracks` | tools/mbcci-sfx/cmd_vu_eccrmwinj.c:188-234 | the machine goes on exactly as long as the address options seen are part of a documented combination |
| `EccInject.AcceptedIff` | tools/mbcci-sfx/cmd_vu_eccrmwinj.c:183-253 | accepted if and only if there is an op and the address options form one of the five combinations, in any order |
| `EccInject.AcceptedMeans` | tools/mbcci-sfx/cmd_vu_eccrmwinj.c:183-253 | an accepted list asks for its last op at the one target that its options name |
| `EccInject.CountAnyOrder` | tools/mbcci-sfx/cmd_vu_eccrmwinj.c:183-240 | lists with the same options have the same combination |
| `EccInject.AnyOrder` | tools/mbcci-sfx/cmd_vu_eccrmwinj.c:183-253 | of two lists with the same options both are accepted or neither, and they ask for the same target, and for the same op exactly when the same one comes last |
| `EccInject.BuildRequest` | tools/mbcci-sfx/cmd_vu_eccrmwinj.c:255-274 | the four words, in numbers, of an op at a target, its address cut to a multiple of 64; the firmware's reading of them gives op and target back |
| `EccInject.EccRmwInject` | tools/mbcci-sfx/cmd_vu_eccrmwinj.c:163-274 | from arguments to words: accepted exactly as documented, and what is sent asks for what the options name |
| `EccInject.WordsDistinguish` | tools/mbcci-sfx/cmd_vu_eccrmwinj.c:255-274 | equal words come from the same op and target, up to alignment and row against codeword |

## Left out

- Sockets, poll, ioctl, D-Bus, directory scans, stdio, allocation failure and clocks: their outcomes are
  inputs of the model.
- The ioctl transport and tunnelling over it. Its error codes are negated, its length check comes before
  the inner return code, and it has no LD-pool target, so it does not promise what MCTP tunnelling does.
- The other encoders and decoders of `src/cxlmi/commands.c`: easy copies, one field at a time.
- Help texts, pretty-printing, name tables, logging, the other command-line parsers and the other examples.
- The claim in the library's README that any tunnelled command fails without FM-API: `send_cmd_cci` looks
  at the command set, not at the tunnel, and the model follows the code.
- The `abortstr` variant of the list check, which prints and aborts where the other returns NULL.
- Liveness of the firmware download: a device that alternates ranges or busy states keeps the host going.
- Counters of type `int` (the tag counter) as 32-bit numbers: only the low byte of the tag reaches the wire.
- Registry.Context.Close: endpoints are values in a sequence, so what an owner does with a pointer to a
  closed endpoint is not captured; following socket numbers as a pointer counts as a fault, whatever
  lies at that address. Mock endpoints hold no descriptor and are not in the registry model.
- Registry.Context.OpenMctp: binding, bus scanning and the identify command that a probe sends are reduced
  to whether they succeed.
- Chunked.TransferFwFile: above 4 GiB the 32-bit offsets wrap, and only the empty-file clause is stated.
- Chunked.VuDlcfgFile: the same above 4 GiB.
- MediaTestLog.Walk: what the walk reads after it has strayed is not modelled.
- ExtentPager.ShowDcExtents: the generation number, which the loop ignores, is not modelled.
- Mctp.Endpoint.SendCmdCci: the mock and ioctl arms and the delay around the send are not part of it; the
  mock and the delay have modules of their own.
- Delay.RunKeepsDistance: a sleep cut short by a signal is not modelled.
- Dlunion.Download: progress messages are not modelled.
- EccInject.EccRmwInject: the C library's number parsing is a parameter, and the unlock, send and lock
  around the request are not modelled.
- The slot of Transfer FW, the configuration type and size fields of DLCFG and the numbers of the download
  actions, which are copied into the requests as they are.
- Records.RecordsOverMctp: the fields of a record are kept as its bytes.
- Mock.Transport.SendMockCmd: a request shorter than its header says, and a response buffer too short for
  a header, which the caller must not pass, are not modelled.

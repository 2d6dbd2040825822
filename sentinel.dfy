/** The sentinel side of redis/sentinel.go: the catalog of channels the monitor
    subscribes to, and what the monitor makes of one received message. The
    subscription loop itself, the clock that stamps each notice and the notice
    sink are not modelled. */
module Sentinel {
  import opened Results
  import opened Codes
  import Text

  /** The channels SentinelManagerMonitor subscribes to. */
  const SentinelChannels: seq<string> := [
    "+reset-master",
    "+slave",
    "+failover-state-reconf-slaves",
    "+failover-detected",
    "+slave-reconf-sent",
    "+slave-reconf-inprog",
    "+slave-reconf-done",
    "-dup-sentinel",
    "+sentinel",
    "+sdown",
    "-sdown",
    "+odown",
    "-odown",
    "+new-epoch",
    "+try-failover",
    "+elected-leader",
    "+failover-state-select-slave",
    "no-good-slave",
    "selected-slave",
    "failover-state-send-slaveof-noone",
    "failover-end-for-timeout",
    "failover-end",
    "+switch-master",
    "+tilt",
    "-tilt"
  ]

  const SwitchMaster: string := "+switch-master"

  /** Title of a notice about an ordinary sentinel event. */
  const EventTitle: string := "redis 哨兵事件提醒"

  /** The master switch a `+switch-master` payload announces. */
  datatype Failover = Failover(masterName: string, oldIP: string, oldPort: string, newIP: string, newPort: string)

  /** message.Msg without its time stamp: the error, when there is one, is the
      failover it reports. */
  datatype Notice = Notice(code: Code, title: string, content: string, err: Option<Failover>)

  /** The notice every error report starts from: the sentinel-error code and its text. */
  const ErrorNotice: Notice := Notice(CodeMonitorSentinelError, Message(CodeMonitorSentinelError), "", None)

  /** The payload's space-separated tokens. */
  function Tokens(payload: string): seq<string>
  {
    Text.Split(payload, ' ')
  }

  /** The body of `switch m.Channel`. A `+switch-master` payload needs five
      tokens, since the source reads tokens 0 to 4 unchecked. */
  function Classify(channel: string, payload: string): (n: Notice)
    requires channel == SwitchMaster ==> |Tokens(payload)| >= 5
    ensures n.err.Some? <==> channel == SwitchMaster
    ensures n.err.Some? ==> n.code == CodeMonitorSentinelError && n.title == Message(CodeMonitorSentinelError)
    ensures n.err.None? ==> n.code == CodeSuccess && n.title == EventTitle
  {
    if channel == SwitchMaster then
      var t := Tokens(payload);
      ErrorNotice.(err := Some(Failover(t[0], t[1], t[2], t[3], t[4])))
    else
      Notice(CodeSuccess, EventTitle, channel + " " + payload, None)
  }

  /** The catalog has 25 entries, all different, and the failover channel is one of them. */
  lemma CatalogShape()
    ensures |SentinelChannels| == 25
    ensures SwitchMaster in SentinelChannels
    ensures forall i, j :: 0 <= i < j < |SentinelChannels| ==> SentinelChannels[i] != SentinelChannels[j]
  {
    assert SentinelChannels[22] == SwitchMaster;
  }

  /** A failover payload written as `name oldIP oldPort newIP newPort` (and
      anything after) is read back token for token; what follows the fifth
      token is ignored. */
  lemma {:induction false} SwitchMasterRoundTrip(f: Failover, rest: seq<string>)
    requires forall t :: t in [f.masterName, f.oldIP, f.oldPort, f.newIP, f.newPort] + rest ==> ' ' !in t
    ensures var payload := Text.Join([f.masterName, f.oldIP, f.oldPort, f.newIP, f.newPort] + rest, " ");
            |Tokens(payload)| >= 5 && Classify(SwitchMaster, payload).err == Some(f)
  {
    var parts := [f.masterName, f.oldIP, f.oldPort, f.newIP, f.newPort] + rest;
    Text.SplitJoin(parts, ' ');
    assert Tokens(Text.Join(parts, " ")) == parts;
  }

  /** Any other channel, in the catalog or not, becomes a success notice whose
      content is the channel, a space and the payload; nothing is parsed. */
  lemma OtherChannels(channel: string, payload: string)
    requires channel != SwitchMaster
    ensures Classify(channel, payload).content == channel + " " + payload
    ensures Classify(channel, payload).code == CodeSuccess
  {
  }
}

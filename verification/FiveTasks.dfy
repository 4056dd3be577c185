/** The five user tasks of the system - shell, FS server, ATA server, input server, GUI server -
    as programs over the kernel, and the proof that they never all block. */
module FiveTasks {
  import opened Machine
  import opened Tasks
  import opened Syscalls
  import opened KernelRuns
  import opened Deliveries
  import opened Contexts

  const SHELL: nat := 0
  const FS: nat := 1
  const ATA: nat := 2
  const INPUT: nat := 3
  const GUI: nat := 4

  const KEY_EVENT := 20
  const MOUSE_EVENT := 30
  const CREATE_WINDOW := 40
  const ATA_READ := 1
  const FS_LIST := 10
  const FS_READ := 11
  const REPLY_OK := 0
  const REPLY_ERROR := 999

  /** The message buffers, locals of the five programs. */
  const SHELL_MSG := 1
  const SHELL_REQ := 2
  const SHELL_RESP := 3
  const FS_MSG := 4
  const FS_REQ := 5
  const FS_RESP := 6
  const ATA_MSG := 7
  const ATA_RESP := 8
  const INPUT_MSG := 9
  const GUI_MSG := 10
  const GUI_REQ := 11

  /** Where each program is. A `Got` point is where it continues once its receive has returned.
      `left` counts the disk reads the shell still has to make after this one. */
  datatype ShellPc =
    | ShIdle | ShGotKey | ShSendFs(kind: int) | ShRecvFs | ShGotFs
    | ShSendAta(left: nat) | ShRecvAta(left: nat) | ShGotAta(left: nat)
  datatype FsPc =
    | FsIdle | FsGot | FsWork(client: int) | FsSendAta(client: int) | FsRecvAta(client: int)
    | FsGotAta(client: int) | FsReply(client: int)
  datatype AtaPc = AtaIdle | AtaGot | AtaReply(client: int)
  datatype GuiPc = GuiPoll | GuiGot | GuiForward | GuiAck(client: int) | GuiYield

  datatype Sys = Sys(k: KState, sh: ShellPc, fs: FsPc, ata: AtaPc, gui: GuiPc)

  /** What the protocol depends on: the program points, the states of the five tasks, and the
      messages last received. */
  datatype View = View(
    sh: ShellPc, fs: FsPc, ata: AtaPc, gui: GuiPc,
    shSt: TaskState, fsSt: TaskState, ataSt: TaskState, inSt: TaskState, guiSt: TaskState,
    shMsg: Message, fsMsg: Message, ataMsg: Message, guiMsg: Message)
  {
    function St(i: nat): TaskState {
      if i == SHELL then shSt else if i == FS then fsSt else if i == ATA then ataSt
      else if i == INPUT then inSt else guiSt
    }

    function SetSt(i: nat, st: TaskState): View {
      if i == SHELL then this.(shSt := st) else if i == FS then this.(fsSt := st)
      else if i == ATA then this.(ataSt := st) else if i == INPUT then this.(inSt := st)
      else this.(guiSt := st)
    }

    function SetMsg(p: int, m: Message): View {
      if p == SHELL_MSG then this.(shMsg := m) else if p == FS_MSG then this.(fsMsg := m)
      else if p == ATA_MSG then this.(ataMsg := m) else if p == GUI_MSG then this.(guiMsg := m)
      else this
    }
  }

  ghost predicate FivePresent(t: Table) {
    && |t| == SLOTS
    && (forall i :: 0 <= i <= GUI ==> t[i].Some?) && (forall i :: GUI < i < SLOTS ==> t[i].None?)
  }

  ghost function Look(s: Sys): View
    requires FivePresent(s.k.tasks)
  {
    View(s.sh, s.fs, s.ata, s.gui,
         s.k.tasks[SHELL].value.state, s.k.tasks[FS].value.state, s.k.tasks[ATA].value.state,
         s.k.tasks[INPUT].value.state, s.k.tasks[GUI].value.state,
         ReadMsg(s.k.umem, SHELL_MSG), ReadMsg(s.k.umem, FS_MSG),
         ReadMsg(s.k.umem, ATA_MSG), ReadMsg(s.k.umem, GUI_MSG))
  }

  // ----- the programs -----

  /** A step of the system: the timer interrupts, the running task makes a call that has no part
      in IPC, decides something locally, or makes an IPC call or yields. A send first stores its
      message at the address it passes. */
  datatype Act =
    | Interrupt(u: Regs)
    | Report(u: Regs, aux: int)
    | Local
    | Call(u: Regs, msg: Message)

  predicate Possible(a: Act) {
    && (a.Call? ==> Enabled(Syscall(a.u, 0)))
    && (a.Report? ==> (a.u.rax == 1 || a.u.rax == 5 || a.u.rax == 6 || a.u.rax == 7 || a.u.rax == 8
      || a.u.rax == 9 || a.u.rax == 11 || a.u.rax == 12))
  }

  function Stored(k: KState, a: Act): KState {
    if a.Call? && a.u.rax == SYS_SEND then k.(umem := k.umem[a.u.rsi := a.msg]) else k
  }

  function Exec(k: KState, a: Act): KState
    requires k.Shaped() && k.tasks[k.cur].Some? && Possible(a)
  {
    match a
    case Interrupt(u) => Step(k, Tick(u))
    case Report(u, aux) => Step(k, Syscall(u, aux))
    case Local => k
    case Call(u, msg) => Step(Stored(k, a), Syscall(u, 0))
  }

  predicate Makes(a: Act, rax: int, rdi: int, rsi: int) {
    a.Call? && a.u.rax == rax && a.u.rdi == rdi && a.u.rsi == rsi
  }

  predicate IsReply(m: Message) {
    m.msgType == REPLY_OK || m.msgType == REPLY_ERROR
  }

  predicate ShellRule(v: View, a: Act, pc: ShellPc) {
    match v.sh
    case ShIdle => Makes(a, SYS_RECV, 0, SHELL_MSG) && pc == ShGotKey
    case ShGotKey =>
      && a.Local?
      && (pc == ShIdle || (v.shMsg.msgType == KEY_EVENT
           && (pc == ShSendFs(FS_LIST) || pc == ShSendFs(FS_READ) || pc == ShSendAta(0) || pc == ShSendAta(1))))
    case ShSendFs(kind) => Makes(a, SYS_SEND, FS + 1, SHELL_REQ) && a.msg.msgType == kind && pc == ShRecvFs
    case ShRecvFs => Makes(a, SYS_RECV, FS + 1, SHELL_RESP) && pc == ShGotFs
    case ShGotFs => a.Local? && pc == ShIdle
    case ShSendAta(left) => Makes(a, SYS_SEND, ATA + 1, SHELL_REQ) && a.msg.msgType == ATA_READ && pc == ShRecvAta(left)
    case ShRecvAta(left) => Makes(a, SYS_RECV, ATA + 1, SHELL_RESP) && pc == ShGotAta(left)
    case ShGotAta(left) => a.Local? && pc == if left == 0 then ShIdle else ShSendAta(left - 1)
  }

  predicate FsRule(v: View, a: Act, pc: FsPc) {
    match v.fs
    case FsIdle => Makes(a, SYS_RECV, 0, FS_MSG) && pc == FsGot
    case FsGot =>
      a.Local? && pc == if (v.fsMsg.msgType == FS_LIST
          || v.fsMsg.msgType == FS_READ) then FsWork(v.fsMsg.sender) else FsIdle
    case FsWork(c) => a.Local? && (pc == FsSendAta(c) || pc == FsReply(c))
    case FsSendAta(c) => Makes(a, SYS_SEND, ATA + 1, FS_REQ) && a.msg.msgType == ATA_READ && pc == FsRecvAta(c)
    case FsRecvAta(c) => Makes(a, SYS_RECV, ATA + 1, FS_RESP) && pc == FsGotAta(c)
    case FsGotAta(c) => a.Local? && pc == FsWork(c)
    case FsReply(c) => Makes(a, SYS_SEND, c, FS_REQ) && IsReply(a.msg) && pc == FsIdle
  }

  predicate AtaRule(v: View, a: Act, pc: AtaPc) {
    match v.ata
    case AtaIdle => Makes(a, SYS_RECV, 0, ATA_MSG) && pc == AtaGot
    case AtaGot => a.Local? && pc == if v.ataMsg.msgType == ATA_READ then AtaReply(v.ataMsg.sender) else AtaIdle
    case AtaReply(c) => Makes(a, SYS_SEND, c, ATA_RESP) && IsReply(a.msg) && pc == AtaIdle
  }

  predicate InputRule(a: Act) {
    || (Makes(a, SYS_SEND, GUI + 1, INPUT_MSG) && (a.msg.msgType == KEY_EVENT || a.msg.msgType == MOUSE_EVENT))
    || (a.Call? && a.u.rax == SYS_YIELD)
  }

  /** `GuiGot` may or may not find that the poll returned zero; the key is forwarded to task 1. */
  predicate GuiRule(v: View, a: Act, pc: GuiPc) {
    match v.gui
    case GuiPoll => Makes(a, SYS_TRY_RECV, 0, GUI_MSG) && pc == GuiGot
    case GuiGot =>
      && a.Local?
      && (|| pc == GuiYield
          || (if v.guiMsg.msgType == KEY_EVENT then pc == GuiPoll || pc == GuiForward
              else if v.guiMsg.msgType == CREATE_WINDOW then pc == GuiAck(v.guiMsg.sender)
              else pc == GuiPoll))
    case GuiForward => Makes(a, SYS_SEND, SHELL + 1, GUI_REQ) && a.msg.msgType == KEY_EVENT && pc == GuiPoll
    case GuiAck(c) => Makes(a, SYS_SEND, c, GUI_REQ) && a.msg.msgType == CREATE_WINDOW && pc == GuiPoll
    case GuiYield => a.Call? && a.u.rax == SYS_YIELD && pc == GuiPoll
  }

  /** The program of the task in slot `i` takes view `v` to the points of `v'`. */
  predicate Rule(v: View, a: Act, i: nat, v': View) {
    if i == SHELL then ShellRule(v, a, v'.sh) && v' == v.(sh := v'.sh)
    else if i == FS then FsRule(v, a, v'.fs) && v' == v.(fs := v'.fs)
    else if i == ATA then AtaRule(v, a, v'.ata) && v' == v.(ata := v'.ata)
    else if i == INPUT then InputRule(a) && v' == v
    else i == GUI && GuiRule(v, a, v'.gui) && v' == v.(gui := v'.gui)
  }

  function WithPoints(v: View, s': Sys): View {
    v.(sh := s'.sh, fs := s'.fs, ata := s'.ata, gui := s'.gui)
  }

  ghost predicate SysStep(s: Sys, a: Act, s': Sys)
    requires s.k.Shaped() && FivePresent(s.k.tasks)
  {
    && s.k.tasks[s.k.cur].Some? && Possible(a) && s'.k == Exec(s.k, a)
    && if a.Interrupt? || a.Report? then s' == s.(k := s'.k)
       else Rule(Look(s), a, s.k.cur, WithPoints(Look(s), s'))
  }

  // ----- the protocol invariant -----

  predicate Awake(st: TaskState) {
    st == Ready || st == Running
  }

  predicate ShellOk(v: View) {
    && (v.sh.ShSendFs? ==> (v.sh.kind == FS_LIST || v.sh.kind == FS_READ))
    && match v.shSt
       case Sending(d, m) =>
         || (v.sh.ShRecvFs? && d == FS + 1 && (m.msgType == FS_LIST || m.msgType == FS_READ))
         || (v.sh.ShRecvAta? && d == ATA + 1 && m.msgType == ATA_READ)
       case Receiving(src, b) =>
         || (v.sh.ShGotKey? && src == None && b == SHELL_MSG)
         || (v.sh.ShGotFs? && src == Some(FS + 1) && b == SHELL_RESP)
         || (v.sh.ShGotAta? && src == Some(ATA + 1) && b == SHELL_RESP)
       case _ => true
  }

  predicate FsOk(v: View) {
    && (!v.fs.FsIdle? && !v.fs.FsGot? ==> v.fs.client == SHELL + 1)
    && (v.fs.FsGot? && Awake(v.fsSt) ==>
          v.fsMsg.sender == SHELL + 1 && (v.fsMsg.msgType == FS_LIST || v.fsMsg.msgType == FS_READ))
    && match v.fsSt
       case Sending(d, m) =>
         || (v.fs.FsRecvAta? && d == ATA + 1 && m.msgType == ATA_READ)
         || (v.fs.FsIdle? && d == SHELL + 1)
       case Receiving(src, b) =>
         || (v.fs.FsGot? && src == None && b == FS_MSG)
         || (v.fs.FsGotAta? && src == Some(ATA + 1) && b == FS_RESP)
       case _ => true
  }

  predicate AtaOk(v: View) {
    && (v.ata.AtaReply? ==> (v.ata.client == SHELL + 1 || v.ata.client == FS + 1))
    && (v.ata.AtaGot? && Awake(v.ataSt) ==>
          (v.ataMsg.sender == SHELL + 1 || v.ataMsg.sender == FS + 1) && v.ataMsg.msgType == ATA_READ)
    && match v.ataSt
       case Sending(d, m) => v.ata.AtaIdle? && (d == SHELL + 1 || d == FS + 1)
       case Receiving(src, b) => v.ata.AtaGot? && src == None && b == ATA_MSG
       case _ => true
  }

  predicate InputGuiOk(v: View) {
    && !v.gui.GuiAck?
    && (v.guiMsg.msgType == 0 || v.guiMsg.msgType == KEY_EVENT || v.guiMsg.msgType == MOUSE_EVENT)
    && (match v.inSt
        case Sending(d, m) => d == GUI + 1 && (m.msgType == KEY_EVENT || m.msgType == MOUSE_EVENT)
        case Receiving(_, _) => false
        case _ => true)
    && (match v.guiSt
        case Sending(d, m) => v.gui.GuiPoll? && d == SHELL + 1
        case Receiving(_, _) => false
        case _ => true)
  }

  /** The shell has handed a request to the FS server and has not been answered. */
  predicate ShellAwaitsFs(v: View) {
    (v.sh.ShRecvFs? && Awake(v.shSt)) || (v.sh.ShGotFs? && v.shSt.Receiving?)
  }

  /** The FS server holds a request it has not answered. */
  predicate FsServes(v: View) {
    if v.fs.FsGot? then Awake(v.fsSt) else if v.fs.FsIdle? then v.fsSt.Sending? else true
  }

  predicate AwaitsAta(v: View, c: int) {
    if c == SHELL + 1 then (v.sh.ShRecvAta? && Awake(v.shSt)) || (v.sh.ShGotAta? && v.shSt.Receiving?)
    else c == FS + 1 && ((v.fs.FsRecvAta? && Awake(v.fsSt)) || (v.fs.FsGotAta? && v.fsSt.Receiving?))
  }

  predicate AtaServes(v: View, c: int) {
    match v.ata
    case AtaGot => Awake(v.ataSt) && v.ataMsg.sender == c
    case AtaReply(client) => client == c
    case AtaIdle => v.ataSt.Sending? && v.ataSt.destId == c
  }

  /** Requests and replies match: who waits for a server is exactly who the server works for. */
  predicate Matched(v: View) {
    && (ShellAwaitsFs(v) <==> FsServes(v))
    && (AwaitsAta(v, SHELL + 1) <==> AtaServes(v, SHELL + 1))
    && (AwaitsAta(v, FS + 1) <==> AtaServes(v, FS + 1))
  }

  predicate Protocol(v: View) {
    ShellOk(v) && FsOk(v) && AtaOk(v) && InputGuiOk(v) && Matched(v)
  }

  ghost predicate SysInv(s: Sys) {
    Inv(s.k) && FivePresent(s.k.tasks) && Protocol(Look(s))
  }

  /** No task is blocked sending to a task that is blocked in a receive that admits it. */
  predicate NoneMissed(v: View) {
    forall i, j :: 0 <= i <= GUI && 0 <= j <= GUI && v.St(i).Sending? && v.St(i).destId == j + 1 ==>
      !(v.St(j).Receiving? && Admits(v.St(j).srcId, i + 1))
  }

  /** The wait order input, GUI, shell, FS, ATA: with no missed rendezvous, the protocol leaves
      somebody runnable. */
  lemma SomebodyRuns(v: View)
    requires Protocol(v) && NoneMissed(v)
    ensures exists j :: 0 <= j <= GUI && Awake(v.St(j))
  {
    assert v.St(SHELL) == v.shSt && v.St(FS) == v.fsSt && v.St(ATA) == v.ataSt && v.St(INPUT) == v.inSt
        && v.St(GUI) == v.guiSt;
  }

  // ----- every step keeps the protocol -----

  lemma ShellLocalKeeps(v: View, v': View)
    requires Protocol(v) && Awake(v.shSt) && Rule(v, Local, SHELL, v')
    ensures Protocol(v')
  {
  }

  lemma FsLocalKeeps(v: View, v': View)
    requires Protocol(v) && Awake(v.fsSt) && Rule(v, Local, FS, v')
    ensures Protocol(v')
  {
  }

  lemma AtaLocalKeeps(v: View, v': View)
    requires Protocol(v) && Awake(v.ataSt) && Rule(v, Local, ATA, v')
    ensures Protocol(v')
  {
  }

  lemma InputGuiLocalKeeps(v: View, i: nat, v': View)
    requires Protocol(v) && (i == INPUT || i == GUI) && Awake(v.St(i)) && Rule(v, Local, i, v')
    ensures Protocol(v')
  {
  }

  lemma LocalKeeps(v: View, i: nat, v': View)
    requires Protocol(v) && i <= GUI && Awake(v.St(i)) && Rule(v, Local, i, v')
    ensures Protocol(v')
  {
    hide Protocol, Rule;
    if i == SHELL {
      ShellLocalKeeps(v, v');
    } else if i == FS {
      FsLocalKeeps(v, v');
    } else if i == ATA {
      AtaLocalKeeps(v, v');
    } else {
      InputGuiLocalKeeps(v, i, v');
    }
  }

  /** The running task blocks in a send. */
  lemma ShellSendSleeps(v: View, a: Act, v': View, m: Message)
    requires Protocol(v) && Awake(v.shSt) && a.Call? && a.u.rax == SYS_SEND
    requires Rule(v, a, SHELL, v') && m == a.msg.(sender := SHELL + 1)
    ensures Protocol(v'.(shSt := Sending(a.u.rdi, m)))
  {
  }

  lemma FsSendSleeps(v: View, a: Act, v': View, m: Message)
    requires Protocol(v) && Awake(v.fsSt) && a.Call? && a.u.rax == SYS_SEND
    requires Rule(v, a, FS, v') && m == a.msg.(sender := FS + 1)
    ensures Protocol(v'.(fsSt := Sending(a.u.rdi, m)))
  {
  }

  lemma AtaSendSleeps(v: View, a: Act, v': View, m: Message)
    requires Protocol(v) && Awake(v.ataSt) && a.Call? && a.u.rax == SYS_SEND
    requires Rule(v, a, ATA, v') && m == a.msg.(sender := ATA + 1)
    ensures Protocol(v'.(ataSt := Sending(a.u.rdi, m)))
  {
  }

  lemma InputSendSleeps(v: View, a: Act, v': View, m: Message)
    requires Protocol(v) && Awake(v.inSt) && a.Call? && a.u.rax == SYS_SEND
    requires Rule(v, a, INPUT, v') && m == a.msg.(sender := INPUT + 1)
    ensures Protocol(v'.SetSt(INPUT, Sending(a.u.rdi, m)))
  {
  }

  lemma GuiSendSleeps(v: View, a: Act, v': View, m: Message)
    requires Protocol(v) && Awake(v.guiSt) && a.Call? && a.u.rax == SYS_SEND
    requires Rule(v, a, GUI, v') && m == a.msg.(sender := GUI + 1)
    ensures Protocol(v'.SetSt(GUI, Sending(a.u.rdi, m)))
  {
  }

  lemma SendSleeps(v: View, a: Act, i: nat, v': View, m: Message)
    requires Protocol(v) && i <= GUI && Awake(v.St(i)) && a.Call? && a.u.rax == SYS_SEND
    requires Rule(v, a, i, v') && m == a.msg.(sender := i + 1)
    ensures Protocol(v'.SetSt(i, Sending(a.u.rdi, m)))
  {
    hide Protocol;
    if i == SHELL {
      ShellSendSleeps(v, a, v', m);
    } else if i == FS {
      FsSendSleeps(v, a, v', m);
    } else if i == ATA {
      AtaSendSleeps(v, a, v', m);
    } else if i == INPUT {
      InputSendSleeps(v, a, v', m);
    } else {
      GuiSendSleeps(v, a, v', m);
    }
  }

  /** The running task hands its message to a receiver that waits for it. */
  lemma ShellSendMeets(v: View, a: Act, v': View, m: Message)
    requires Protocol(v) && Awake(v.shSt) && a.Call? && a.u.rax == SYS_SEND
    requires Rule(v, a, SHELL, v') && m == a.msg.(sender := SHELL + 1) && 1 <= a.u.rdi <= GUI + 1
    requires v.St(a.u.rdi - 1).Receiving? && Admits(v.St(a.u.rdi - 1).srcId, SHELL + 1)
    ensures Protocol(v'.SetSt(a.u.rdi - 1, Ready).SetMsg(v.St(a.u.rdi - 1).bufferPtr, m))
  {
  }

  lemma FsSendMeets(v: View, a: Act, v': View, m: Message)
    requires Protocol(v) && Awake(v.fsSt) && a.Call? && a.u.rax == SYS_SEND
    requires Rule(v, a, FS, v') && m == a.msg.(sender := FS + 1) && 1 <= a.u.rdi <= GUI + 1
    requires v.St(a.u.rdi - 1).Receiving? && Admits(v.St(a.u.rdi - 1).srcId, FS + 1)
    ensures Protocol(v'.SetSt(a.u.rdi - 1, Ready).SetMsg(v.St(a.u.rdi - 1).bufferPtr, m))
  {
  }

  lemma AtaSendMeets(v: View, a: Act, v': View, m: Message)
    requires Protocol(v) && Awake(v.ataSt) && a.Call? && a.u.rax == SYS_SEND
    requires Rule(v, a, ATA, v') && m == a.msg.(sender := ATA + 1) && 1 <= a.u.rdi <= GUI + 1
    requires v.St(a.u.rdi - 1).Receiving? && Admits(v.St(a.u.rdi - 1).srcId, ATA + 1)
    ensures Protocol(v'.SetSt(a.u.rdi - 1, Ready).SetMsg(v.St(a.u.rdi - 1).bufferPtr, m))
  {
  }

  lemma InputGuiSendMeets(v: View, a: Act, i: nat, v': View, m: Message)
    requires Protocol(v) && (i == INPUT || i == GUI) && Awake(v.St(i)) && a.Call? && a.u.rax == SYS_SEND
    requires Rule(v, a, i, v') && m == a.msg.(sender := i + 1) && 1 <= a.u.rdi <= GUI + 1
    requires v.St(a.u.rdi - 1).Receiving? && Admits(v.St(a.u.rdi - 1).srcId, i + 1)
    ensures Protocol(v'.SetSt(a.u.rdi - 1, Ready).SetMsg(v.St(a.u.rdi - 1).bufferPtr, m))
  {
  }

  lemma SendMeets(v: View, a: Act, i: nat, v': View, m: Message)
    requires Protocol(v) && i <= GUI && Awake(v.St(i)) && a.Call? && a.u.rax == SYS_SEND
    requires Rule(v, a, i, v') && m == a.msg.(sender := i + 1) && 1 <= a.u.rdi <= GUI + 1
    requires v.St(a.u.rdi - 1).Receiving? && Admits(v.St(a.u.rdi - 1).srcId, i + 1)
    ensures Protocol(v'.SetSt(a.u.rdi - 1, Ready).SetMsg(v.St(a.u.rdi - 1).bufferPtr, m))
  {
    hide Protocol, Rule;
    if i == SHELL {
      ShellSendMeets(v, a, v', m);
    } else if i == FS {
      FsSendMeets(v, a, v', m);
    } else if i == ATA {
      AtaSendMeets(v, a, v', m);
    } else {
      InputGuiSendMeets(v, a, i, v', m);
    }
  }

  /** The running task blocks in a receive. */
  lemma ShellRecvSleeps(v: View, a: Act, v': View)
    requires Protocol(v) && Awake(v.shSt) && a.Call? && a.u.rax == SYS_RECV && Rule(v, a, SHELL, v')
    ensures Protocol(v'.(shSt := Receiving(Filter(a.u.rdi), a.u.rsi)))
  {
  }

  lemma FsRecvSleeps(v: View, a: Act, v': View)
    requires Protocol(v) && Awake(v.fsSt) && a.Call? && a.u.rax == SYS_RECV && Rule(v, a, FS, v')
    ensures Protocol(v'.(fsSt := Receiving(Filter(a.u.rdi), a.u.rsi)))
  {
  }

  lemma AtaRecvSleeps(v: View, a: Act, v': View)
    requires Protocol(v) && Awake(v.ataSt) && a.Call? && a.u.rax == SYS_RECV && Rule(v, a, ATA, v')
    ensures Protocol(v'.(ataSt := Receiving(Filter(a.u.rdi), a.u.rsi)))
  {
  }

  lemma RecvSleeps(v: View, a: Act, i: nat, v': View)
    requires Protocol(v) && i <= GUI && Awake(v.St(i)) && a.Call? && a.u.rax == SYS_RECV
    requires Rule(v, a, i, v')
    ensures Protocol(v'.SetSt(i, Receiving(Filter(a.u.rdi), a.u.rsi)))
  {
    hide Protocol;
    if i == SHELL {
      ShellRecvSleeps(v, a, v');
    } else if i == FS {
      FsRecvSleeps(v, a, v');
    } else if i == ATA {
      AtaRecvSleeps(v, a, v');
    }
  }

  /** The running task takes the message of waiting sender `f`. */
  lemma ShellRecvMeets(v: View, a: Act, v': View, f: nat)
    requires Protocol(v) && Awake(v.shSt) && a.Call? && a.u.rax == SYS_RECV
    requires Rule(v, a, SHELL, v') && f <= GUI
    requires v.St(f).Sending? && v.St(f).destId == SHELL + 1 && Admits(Filter(a.u.rdi), f + 1)
    ensures Protocol(v'.SetSt(f, Ready).SetMsg(a.u.rsi, v.St(f).msg))
  {
    assert f == FS || f == ATA || f == GUI;
  }

  lemma FsRecvMeets(v: View, a: Act, v': View, f: nat)
    requires Protocol(v) && Awake(v.fsSt) && a.Call? && a.u.rax == SYS_RECV
    requires Rule(v, a, FS, v') && f <= GUI
    requires v.St(f).Sending? && v.St(f).destId == FS + 1 && Admits(Filter(a.u.rdi), f + 1)
    requires v.St(f).msg.sender == f + 1
    ensures Protocol(v'.SetSt(f, Ready).SetMsg(a.u.rsi, v.St(f).msg))
  {
    assert f == SHELL || f == ATA;
  }

  lemma AtaRecvMeets(v: View, a: Act, v': View, f: nat)
    requires Protocol(v) && Awake(v.ataSt) && a.Call? && a.u.rax == SYS_RECV
    requires Rule(v, a, ATA, v') && f <= GUI
    requires v.St(f).Sending? && v.St(f).destId == ATA + 1 && Admits(Filter(a.u.rdi), f + 1)
    requires v.St(f).msg.sender == f + 1
    ensures Protocol(v'.SetSt(f, Ready).SetMsg(a.u.rsi, v.St(f).msg))
  {
    assert f == SHELL || f == FS;
  }

  lemma GuiRecvMeets(v: View, a: Act, v': View, f: nat)
    requires Protocol(v) && Awake(v.guiSt) && a.Call? && a.u.rax == SYS_TRY_RECV
    requires Rule(v, a, GUI, v') && f <= GUI
    requires v.St(f).Sending? && v.St(f).destId == GUI + 1
    ensures Protocol(v'.SetSt(f, Ready).SetMsg(a.u.rsi, v.St(f).msg))
  {
    assert f == INPUT;
  }

  lemma RecvMeets(v: View, a: Act, i: nat, v': View, f: nat)
    requires Protocol(v) && i <= GUI && Awake(v.St(i)) && a.Call? && (a.u.rax == SYS_RECV || a.u.rax == SYS_TRY_RECV)
    requires Rule(v, a, i, v') && f <= GUI
    requires v.St(f).Sending? && v.St(f).destId == i + 1 && Admits(Filter(a.u.rdi), f + 1)
    requires v.St(f).msg.sender == f + 1
    ensures Protocol(v'.SetSt(f, Ready).SetMsg(a.u.rsi, v.St(f).msg))
  {
    hide Protocol;
    if i == SHELL {
      ShellRecvMeets(v, a, v', f);
    } else if i == FS {
      FsRecvMeets(v, a, v', f);
    } else if i == ATA {
      AtaRecvMeets(v, a, v', f);
    } else {
      GuiRecvMeets(v, a, v', f);
    }
  }

  /** A poll that finds nothing, and a yield. */
  lemma OtherCallKeeps(v: View, a: Act, i: nat, v': View)
    requires Protocol(v) && i <= GUI && Awake(v.St(i)) && a.Call? && (a.u.rax == SYS_TRY_RECV || a.u.rax == SYS_YIELD)
    requires Rule(v, a, i, v')
    ensures Protocol(v')
  {
  }

  // ----- from views back to kernel states -----

  lemma LookAfter(s: Sys, s': Sys, i: nat, st: TaskState)
    requires FivePresent(s.k.tasks) && i <= GUI && s'.k.tasks == WithState(s.k.tasks, i, st)
    requires s'.k.umem == s.k.umem
    ensures FivePresent(s'.k.tasks) && Look(s') == WithPoints(Look(s), s').SetSt(i, st)
  {
  }

  lemma LookAfterMeeting(s: Sys, s': Sys, i: nat, p: int, m: Message)
    requires FivePresent(s.k.tasks) && i <= GUI && s'.k.tasks == WithState(s.k.tasks, i, Ready)
    requires s'.k.umem == s.k.umem[p := m]
    ensures FivePresent(s'.k.tasks) && Look(s') == WithPoints(Look(s), s').SetSt(i, Ready).SetMsg(p, m)
  {
    hide Look, WithState;
    var s1 := s.(k := s.k.(umem := s.k.umem[p := m]));
    LookStored(s, p, m);
    LookAfter(s1, s', i, Ready);
  }

  lemma LookStored(s: Sys, p: int, m: Message)
    requires FivePresent(s.k.tasks)
    ensures Look(s.(k := s.k.(umem := s.k.umem[p := m]))) == Look(s).SetMsg(p, m)
  {
  }

  lemma LookSt(s: Sys, i: nat)
    requires FivePresent(s.k.tasks) && i <= GUI
    ensures Look(s).St(i) == s.k.tasks[i].value.state
    ensures Awake(Look(s).St(i)) <==> RunnableAt(s.k.tasks, i)
  {
  }

  lemma NoneMissedIn(s: Sys)
    requires FivePresent(s.k.tasks) && NoMissedRendezvous(s.k.tasks)
    ensures NoneMissed(Look(s))
  {
    hide Look;
    var v := Look(s);
    forall i, j | 0 <= i <= GUI && 0 <= j <= GUI && v.St(i).Sending? && v.St(i).destId == j + 1
      ensures !(v.St(j).Receiving? && Admits(v.St(j).srcId, i + 1))
    {
      LookSt(s, i);
      LookSt(s, j);
      assert !Missed(s.k.tasks, i, j);
    }
  }

  /** An IPC call that blocks its caller keeps the protocol. `s` is the state once the message is
      stored. */
  lemma BlockingCallKeeps(s: Sys, a: Act, s': Sys)
    requires Inv(s.k) && FivePresent(s.k.tasks) && Protocol(Look(s))
    requires a.Call? && Possible(a) && (a.u.rax == SYS_SEND ==> ReadMsg(s.k.umem, a.u.rsi) == a.msg)
    requires Rule(Look(s), a, s.k.cur, WithPoints(Look(s), s'))
    requires s'.k.tasks == TasksAfter(s.k, a.u.rax, a.u.rdi, a.u.rsi)
    requires s'.k.umem == UmemAfter(s.k, a.u.rax, a.u.rdi, a.u.rsi)
    requires Blocks(s.k, a.u.rax, a.u.rdi)
    ensures FivePresent(s'.k.tasks) && Protocol(Look(s'))
  {
    hide Protocol, Look, Rule, TableInv, DeliveryInv, NoMissedRendezvous;
    var k, i, u := s.k, s.k.cur, a.u;
    var v, v' := Look(s), WithPoints(Look(s), s');
    LookSt(s, i);
    RuleCalls(v, a, i, v');
    if u.rax == SYS_SEND {
      SendSleeps(v, a, i, v', SentMessage(k, u.rsi));
      LookAfter(s, s', i, Sending(u.rdi, SentMessage(k, u.rsi)));
    } else {
      RecvSleeps(v, a, i, v');
      LookAfter(s, s', i, Receiving(Filter(u.rdi), u.rsi));
    }
  }

  /** A send that meets its receiver keeps the protocol. */
  lemma MeetingSendKeeps(s: Sys, a: Act, s': Sys)
    requires Inv(s.k) && FivePresent(s.k.tasks) && Protocol(Look(s))
    requires a.Call? && Possible(a) && (a.u.rax == SYS_SEND ==> ReadMsg(s.k.umem, a.u.rsi) == a.msg)
    requires Rule(Look(s), a, s.k.cur, WithPoints(Look(s), s'))
    requires s'.k.tasks == TasksAfter(s.k, a.u.rax, a.u.rdi, a.u.rsi)
    requires s'.k.umem == UmemAfter(s.k, a.u.rax, a.u.rdi, a.u.rsi)
    requires a.u.rax == SYS_SEND && !Blocks(s.k, a.u.rax, a.u.rdi)
    ensures FivePresent(s'.k.tasks) && Protocol(Look(s'))
  {
    hide Protocol, Look, Rule, TableInv, DeliveryInv, NoMissedRendezvous;
    var k, i, u := s.k, s.k.cur, a.u;
    var v, v' := Look(s), WithPoints(Look(s), s');
    LookSt(s, i);
    RuleCalls(v, a, i, v');
    LookSt(s, u.rdi - 1);
    SendMeets(v, a, i, v', SentMessage(k, u.rsi));
    LookAfterMeeting(s, s', u.rdi - 1, v.St(u.rdi - 1).bufferPtr, SentMessage(k, u.rsi));
  }

  /** So do a receive that meets a sender, a poll that does not, and a yield. */
  lemma OtherCallProtocol(s: Sys, a: Act, s': Sys)
    requires Inv(s.k) && FivePresent(s.k.tasks) && Protocol(Look(s))
    requires a.Call? && Possible(a) && (a.u.rax == SYS_SEND ==> ReadMsg(s.k.umem, a.u.rsi) == a.msg)
    requires Rule(Look(s), a, s.k.cur, WithPoints(Look(s), s'))
    requires s'.k.tasks == TasksAfter(s.k, a.u.rax, a.u.rdi, a.u.rsi)
    requires s'.k.umem == UmemAfter(s.k, a.u.rax, a.u.rdi, a.u.rsi)
    requires a.u.rax != SYS_SEND && !Blocks(s.k, a.u.rax, a.u.rdi)
    ensures FivePresent(s'.k.tasks) && Protocol(Look(s'))
  {
    hide Protocol, Look, Rule, TableInv, DeliveryInv, NoMissedRendezvous;
    var k, i, u := s.k, s.k.cur, a.u;
    var v, v' := Look(s), WithPoints(Look(s), s');
    LookSt(s, i);
    RuleCalls(v, a, i, v');
    var found := FindSender(k, Filter(u.rdi), 0);
    if found.Some? && u.rax != SYS_YIELD {
      var f := found.value;
      LookSt(s, f);
      SenderId(k, f);
      RecvMeets(v, a, i, v', f);
      LookAfterMeeting(s, s', f, u.rsi, v.St(f).msg);
    } else {
      OtherCallKeeps(v, a, i, v');
      SameLook(s, s');
    }
  }

  /** The kernel's id of a waiting sender is its slot's, and so is the sender of its message. */
  lemma SenderId(k: KState, f: nat)
    requires Inv(k) && Present(k.tasks, f) && k.tasks[f].value.state.Sending?
    ensures k.tasks[f].value.id == f + 1 && k.tasks[f].value.state.msg.sender == f + 1
  {
    PendingSender(k, f);
  }

  /** An IPC call keeps the protocol. */
  lemma CallKeepsProtocol(s: Sys, a: Act, s': Sys)
    requires Inv(s.k) && FivePresent(s.k.tasks) && Protocol(Look(s))
    requires a.Call? && Possible(a) && (a.u.rax == SYS_SEND ==> ReadMsg(s.k.umem, a.u.rsi) == a.msg)
    requires Rule(Look(s), a, s.k.cur, WithPoints(Look(s), s'))
    requires s'.k.tasks == TasksAfter(s.k, a.u.rax, a.u.rdi, a.u.rsi)
    requires s'.k.umem == UmemAfter(s.k, a.u.rax, a.u.rdi, a.u.rsi)
    ensures FivePresent(s'.k.tasks) && Protocol(Look(s'))
  {
    hide Protocol, Look, Rule, TableInv, NoMissedRendezvous, DeliveryInv, CurrentInv, TasksAfter, UmemAfter, Blocks;
    if Blocks(s.k, a.u.rax, a.u.rdi) {
      BlockingCallKeeps(s, a, s');
    } else if a.u.rax == SYS_SEND {
      MeetingSendKeeps(s, a, s');
    } else {
      OtherCallProtocol(s, a, s');
    }
  }


  lemma SameLook(s: Sys, s': Sys)
    requires FivePresent(s.k.tasks) && s'.k.tasks == s.k.tasks
    requires forall p :: p == SHELL_MSG || p == FS_MSG || p == ATA_MSG || p == GUI_MSG ==>
               ReadMsg(s'.k.umem, p) == ReadMsg(s.k.umem, p)
    ensures Look(s') == WithPoints(Look(s), s')
    ensures s' == s.(k := s'.k) ==> Look(s') == Look(s)
  {
    assert ReadMsg(s'.k.umem, SHELL_MSG) == ReadMsg(s.k.umem, SHELL_MSG);
    assert ReadMsg(s'.k.umem, FS_MSG) == ReadMsg(s.k.umem, FS_MSG);
    assert ReadMsg(s'.k.umem, ATA_MSG) == ReadMsg(s.k.umem, ATA_MSG);
    assert ReadMsg(s'.k.umem, GUI_MSG) == ReadMsg(s.k.umem, GUI_MSG);
  }

  /** Which calls the programs make, and with what. */
  lemma RuleCalls(v: View, a: Act, i: nat, v': View)
    requires Protocol(v) && a.Call? && Rule(v, a, i, v')
    ensures i <= GUI
    ensures a.u.rax == SYS_SEND || a.u.rax == SYS_RECV || a.u.rax == SYS_TRY_RECV || a.u.rax == SYS_YIELD
    ensures a.u.rax == SYS_SEND ==> 1 <= a.u.rdi <= GUI + 1
    ensures a.u.rax == SYS_SEND ==>
              a.u.rsi == SHELL_REQ || a.u.rsi == FS_REQ || a.u.rsi == ATA_RESP || a.u.rsi == INPUT_MSG
                  || a.u.rsi == GUI_REQ
  {
  }

  // ----- deadlock freedom -----

  /** A blocking call always finds another task to run: the scheduler's hypothesis holds here. */
  lemma CallCovered(k: KState, a: Act, s': Sys)
    requires Inv(k) && a.Call? && Enabled(Syscall(a.u, 0))
    requires s'.k.tasks == TasksAfter(k, a.u.rax, a.u.rdi, a.u.rsi)
    requires FivePresent(s'.k.tasks) && Protocol(Look(s')) && NoMissedRendezvous(s'.k.tasks)
    ensures Covered(k, Syscall(a.u, 0))
  {
    hide Protocol, DeliveryInv, NoMissedRendezvous, Look;
    if Blocks(k, a.u.rax, a.u.rdi) {
      NoneMissedIn(s');
      SomebodyRuns(Look(s'));
      var j :| 0 <= j <= GUI && Awake(Look(s').St(j));
      LookSt(s', j);
      assert j != k.cur && s'.k.tasks[j] == k.tasks[j];
      assert RunnableAt(k.tasks, j);
    }
  }

  lemma CallInv(s: Sys, a: Act, s': Sys)
    requires Inv(s.k) && FivePresent(s.k.tasks) && Protocol(Look(s))
    requires a.Call? && Possible(a) && (a.u.rax == SYS_SEND ==> ReadMsg(s.k.umem, a.u.rsi) == a.msg)
    requires Rule(Look(s), a, s.k.cur, WithPoints(Look(s), s'))
    requires s'.k == Step(s.k, Syscall(a.u, 0))
    ensures SysInv(s')
    ensures Covered(s.k, Syscall(a.u, 0))
  {
    hide Step, Protocol, Look, Rule, TableInv, NoMissedRendezvous, DeliveryInv, Covered, TasksAfter, UmemAfter;
    StepTasks(s.k, Syscall(a.u, 0));
    SyscallUmem(s.k, a.u, 0);
    CallKeepsProtocol(s, a, s');
    StepInv(s.k, Syscall(a.u, 0));
    CallCovered(s.k, a, s');
  }

  /** The timer and the calls outside IPC leave the protocol alone. */
  lemma QuietInv(s: Sys, e: Event, s': Sys)
    requires SysInv(s) && Enabled(e) && s' == s.(k := Step(s.k, e))
    requires e.UserCode? || e.Tick? || (e.u.rax != SYS_SEND && e.u.rax != SYS_RECV && e.u.rax != SYS_TRY_RECV)
    requires e.UserCode? ==> forall p :: p == SHELL_MSG || p == FS_MSG || p == ATA_MSG || p == GUI_MSG ==>
               ReadMsg(e.umem, p) == ReadMsg(s.k.umem, p)
    ensures SysInv(s') && Look(s') == Look(s)
    ensures Covered(s.k, e)
  {
    hide Dispatch, SyscallPush, TimerPush, Protocol, Look, TableInv, NoMissedRendezvous, DeliveryInv;
    StepTasks(s.k, e);
    StepInv(s.k, e);
    if e.Tick? {
      TickDelivers(s.k, e.u);
    } else if e.Syscall? {
      SyscallUmem(s.k, e.u, e.aux);
    }
    SameLook(s, s');
  }

  /** Every step of the five-task system keeps the invariant. */
  lemma SysStepInv(s: Sys, a: Act, s': Sys)
    requires SysInv(s) && SysStep(s, a, s')
    ensures SysInv(s')
  {
    hide Step, Protocol, Look, Inv, Rule;
    match a
    case Interrupt(u) => QuietInv(s, Tick(u), s');
    case Report(u, aux) => QuietInv(s, Syscall(u, aux), s');
    case Local => LocalInv(s, s');
    case Call(u, msg) =>
      CallRule(s, a, s');
      var s1 := s.(k := Stored(s.k, a));
      if u.rax == SYS_SEND {
        StoreInv(s, u.rsi, msg);
      }
      CallInv(s1, a, s');
  }

  lemma LocalInv(s: Sys, s': Sys)
    requires SysInv(s) && SysStep(s, Local, s')
    ensures SysInv(s')
  {
    hide Protocol, Look, Rule, TableInv, NoMissedRendezvous, DeliveryInv;
    LookSt(s, s.k.cur);
    LocalKeeps(Look(s), s.k.cur, WithPoints(Look(s), s'));
    SameLook(s, s');
  }

  lemma CallRule(s: Sys, a: Act, s': Sys)
    requires SysInv(s) && a.Call? && SysStep(s, a, s')
    ensures Rule(Look(s), a, s.k.cur, WithPoints(Look(s), s'))
    ensures a.u.rax == SYS_SEND ==>
              a.u.rsi == SHELL_REQ || a.u.rsi == FS_REQ || a.u.rsi == ATA_RESP || a.u.rsi == INPUT_MSG
                  || a.u.rsi == GUI_REQ
  {
    hide Exec, Protocol, Look, Rule;
    RuleCalls(Look(s), a, s.k.cur, WithPoints(Look(s), s'));
  }

  lemma StoreInv(s: Sys, p: int, m: Message)
    requires SysInv(s)
    requires p == SHELL_REQ || p == FS_REQ || p == ATA_RESP || p == INPUT_MSG || p == GUI_REQ
    ensures var s1 := s.(k := s.k.(umem := s.k.umem[p := m]));
            SysInv(s1) && Look(s1) == Look(s) && ReadMsg(s1.k.umem, p) == m
  {
    hide Protocol, Look, CurrentInv, TableInv, NoMissedRendezvous, DeliveryInv;
    QuietInv(s, UserCode(s.k.umem[p := m]), s.(k := s.k.(umem := s.k.umem[p := m])));
  }

  /** A run of the system. */
  ghost predicate SysTrace(ss: seq<Sys>, acts: seq<Act>) {
    && |ss| == |acts| + 1
    && (forall n :: 0 <= n < |ss| ==> ss[n].k.Shaped() && FivePresent(ss[n].k.tasks))
    && (forall n :: 0 <= n < |acts| ==> SysStep(ss[n], acts[n], ss[n + 1]))
  }

  /** Deadlock freedom: in every state of every run, the task in control is runnable, so the
      kernel never keeps running a blocked task; and with it everything the kernel invariant
      says, delivery and rendezvous included, holds throughout. */
  lemma {:induction false} DeadlockFree(ss: seq<Sys>, acts: seq<Act>, n: nat)
    requires SysTrace(ss, acts) && SysInv(ss[0]) && n < |ss|
    ensures SysInv(ss[n])
    ensures RunnableAt(ss[n].k.tasks, ss[n].k.cur)
    decreases n
  {
    hide SysStep, Protocol, Look, TableInv, NoMissedRendezvous, DeliveryInv;
    if n > 0 {
      DeadlockFree(ss, acts, n - 1);
      SysStepInv(ss[n - 1], acts[n - 1], ss[n]);
    }
  }
}

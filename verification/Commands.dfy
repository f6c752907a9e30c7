/** The command procedures: they read the argument vector, change the two stores and append to the reply list. */
module CommandProcedures {
  import opened StoreModel
  import opened TimedModel
  import opened Protocol
  import opened QueryReaders
  import opened Replies
  import opened Conversations
  import S = Server

  // The parts of a command's world are in order and share nothing; a complete command waits.
  ghost predicate Ready(query: QueryReader, replies: ReplyList, server: S.Server)
    reads query, query.Repr, replies, replies.Repr, server, server.kvstore, server.expire, server.kvstore.Repr,
      server.expire.Repr
  {
    && query.Valid() == true && replies.Valid() == true && server.Valid() == true
    && query.Repr !! replies.Repr && Outside(query.Repr + replies.Repr, server)
    && query in query.Repr && replies in replies.Repr
    && replies.replyRemaining == null && query.queryParserState.Done?
  }

  ghost predicate Outside(r: set<object>, server: S.Server)
    reads server, server.kvstore, server.expire
  {
    server !in r && server.kvstore !in r && server.expire !in r && r !! server.kvstore.Repr && r !! server.expire.Repr
  }

  /** SET <key> <value> [EX <seconds>] */
  method SetCommand(query: QueryReader, replies: ReplyList, server: S.Server, timeout: Timeout, now: nat)
    requires Ready(query, replies, server) == true && query.parser.args != [] && query.parser.args[0] == SET
    modifies replies.Repr, server.kvstore.Repr, server.expire.Repr
    ensures Ready(query, replies, server) == true && fresh(replies.Repr - old(replies.Repr))
    ensures |replies.blocks| <= old(|replies.blocks|) + 4
    ensures fresh(server.kvstore.Repr - old(server.kvstore.Repr)) && fresh(server.expire.Repr - old(server.expire.Repr))
    ensures server.View() == Next(old(server.View()), Event(now, Operation(timeout, query.parser.args)))
    ensures replies.Pending() == old(replies.Pending()) + ReplyTo(old(server.View()), query.parser.args, now)
    ensures var args := query.parser.args;
            var ex := if |args| > 4 then Some(timeout(args[4])) else None;
            && server.View() == Next(old(server.View()), Event(now, Set(Arg(args, 1), Arg(args, 2), ex)))
            && replies.Pending() == old(replies.Pending()) + [43, 79, 75, 13, 10]
  {
    hide S.Server.Valid, QueryReader.Valid, ReplyList.Valid, Next, Joined, Db.GetReply, Store.Has, Decimal;
    var key := query.Argument(1);
    var value := query.Argument(2);
    var ex := None;
    if query.argc > 4 {
      var seconds := query.Argument(4);
      ex := Some(timeout(seconds));
    }
    server.Set(key, value, ex, now);
    replies.AppendToReply(OK_REPLY);
  }

  /** Appends a binary string, in four blocks. */
  method AppendBinaryString(replies: ReplyList, value: Bytes)
    requires replies.Valid() && replies.replyRemaining == null
    modifies replies.Repr
    ensures replies.Valid() && replies.replyRemaining == null
    ensures old(replies.Repr) <= replies.Repr && fresh(replies.Repr - old(replies.Repr))
    ensures replies.Pending() == old(replies.Pending()) + EncodeString(value)
    ensures |replies.blocks| == old(|replies.blocks|) + 4
  {
    hide ReplyList.Valid, Joined, Decimal;
    replies.AppendToReply([DOLLAR]);
    replies.AppendIntegerToReply(|value|);
    replies.AppendToReply([CR, LF]);
    replies.AppendToReply(value);
  }

  /** GET <key>: the value as a binary string, or null if there is none or it has expired. */
  method GetCommand(query: QueryReader, replies: ReplyList, server: S.Server, ghost timeout: Timeout, now: nat)
    requires Ready(query, replies, server) == true && query.parser.args != [] && query.parser.args[0] == GET
    modifies replies.Repr, server.kvstore.Repr, server.expire.Repr
    ensures Ready(query, replies, server) == true && fresh(replies.Repr - old(replies.Repr))
    ensures |replies.blocks| <= old(|replies.blocks|) + 4
    ensures fresh(server.kvstore.Repr - old(server.kvstore.Repr)) && fresh(server.expire.Repr - old(server.expire.Repr))
    ensures server.View() == Next(old(server.View()), Event(now, Operation(timeout, query.parser.args)))
    ensures replies.Pending() == old(replies.Pending()) + ReplyTo(old(server.View()), query.parser.args, now)
    ensures var key, value := Arg(query.parser.args, 1), old(server.View()).GetReply(Arg(query.parser.args, 1), now);
            && server.View() == Next(old(server.View()), Event(now, Get(key)))
            && replies.Pending() == old(replies.Pending())
                                  + if value.Some? then EncodeString(value.value) else [95, 13, 10]
  {
    hide S.Server.Valid, QueryReader.Valid, ReplyList.Valid, Next, Joined, Db.GetReply, Store.Has, Decimal;
    var key := query.Argument(1);
    var value := server.Get(key, now);
    if value.Some? {
      AppendBinaryString(replies, value.value);
    } else {
      replies.AppendToReply(NULL_REPLY);
    }
  }

  /** EXISTS <key> */
  method ExistsCommand(query: QueryReader, replies: ReplyList, server: S.Server, ghost timeout: Timeout, now: nat)
    requires Ready(query, replies, server) == true && query.parser.args != [] && query.parser.args[0] == EXISTS
    modifies replies.Repr, server.kvstore.Repr, server.expire.Repr
    ensures Ready(query, replies, server) == true && fresh(replies.Repr - old(replies.Repr))
    ensures |replies.blocks| <= old(|replies.blocks|) + 4
    ensures fresh(server.kvstore.Repr - old(server.kvstore.Repr)) && fresh(server.expire.Repr - old(server.expire.Repr))
    ensures server.View() == Next(old(server.View()), Event(now, Operation(timeout, query.parser.args)))
    ensures replies.Pending() == old(replies.Pending()) + ReplyTo(old(server.View()), query.parser.args, now)
    ensures server.View() == old(server.View())
    ensures replies.Pending() == old(replies.Pending())
                               + if old(server.View()).data.Has(Arg(query.parser.args, 1)) then [35, 116, 13, 10]
                                 else [35, 102, 13, 10]
  {
    hide S.Server.Valid, QueryReader.Valid, ReplyList.Valid, Joined, Db.GetReply, Store.Has, Decimal;
    var key := query.Argument(1);
    var found := server.Exists(key);
    if found { replies.AppendToReply(TRUE_REPLY); } else { replies.AppendToReply(FALSE_REPLY); }
  }

  /** DEL <key>: the number of keys removed. */
  method DelCommand(query: QueryReader, replies: ReplyList, server: S.Server, ghost timeout: Timeout, now: nat)
    requires Ready(query, replies, server) == true && query.parser.args != [] && query.parser.args[0] == DEL
    modifies replies.Repr, server.kvstore.Repr, server.expire.Repr
    ensures Ready(query, replies, server) == true && fresh(replies.Repr - old(replies.Repr))
    ensures |replies.blocks| <= old(|replies.blocks|) + 4
    ensures fresh(server.kvstore.Repr - old(server.kvstore.Repr)) && fresh(server.expire.Repr - old(server.expire.Repr))
    ensures server.View() == Next(old(server.View()), Event(now, Operation(timeout, query.parser.args)))
    ensures replies.Pending() == old(replies.Pending()) + ReplyTo(old(server.View()), query.parser.args, now)
    ensures server.View() == Next(old(server.View()), Event(now, Del(Arg(query.parser.args, 1))))
    ensures replies.Pending() == old(replies.Pending())
                               + if old(server.View()).data.Has(Arg(query.parser.args, 1)) then [58, 49, 13, 10]
                                 else [58, 48, 13, 10]
  {
    hide S.Server.Valid, QueryReader.Valid, ReplyList.Valid, Next, Joined, Db.GetReply, Store.Has, Decimal;
    var key := query.Argument(1);
    var deleted := server.Del(key, now);
    if !deleted { replies.AppendToReply(ZERO_REPLY); } else { replies.AppendToReply(ONE_REPLY); }
  }

  /** ECHO <message>: the message as a simple string. */
  method EchoCommand(query: QueryReader, replies: ReplyList, server: S.Server, ghost timeout: Timeout, now: nat)
    requires Ready(query, replies, server) == true && query.parser.args != [] && query.parser.args[0] == ECHO
    modifies replies.Repr, server.kvstore.Repr, server.expire.Repr
    ensures Ready(query, replies, server) == true && fresh(replies.Repr - old(replies.Repr))
    ensures |replies.blocks| <= old(|replies.blocks|) + 4
    ensures fresh(server.kvstore.Repr - old(server.kvstore.Repr)) && fresh(server.expire.Repr - old(server.expire.Repr))
    ensures server.View() == Next(old(server.View()), Event(now, Operation(timeout, query.parser.args)))
    ensures replies.Pending() == old(replies.Pending()) + ReplyTo(old(server.View()), query.parser.args, now)
    ensures server.View() == old(server.View())
    ensures replies.Pending() == old(replies.Pending()) + [43] + Arg(query.parser.args, 1) + [13, 10]
  {
    hide S.Server.Valid, QueryReader.Valid, ReplyList.Valid, Joined, Db.GetReply, Store.Has, Decimal;
    var message := query.Argument(1);
    replies.AppendToReply([PLUS]);
    replies.AppendToReply(message);
    replies.AppendToReply([CR, LF]);
  }

  method CommandName(query: QueryReader, ghost replies: ReplyList, ghost server: S.Server) returns (name: Bytes)
    requires Ready(query, replies, server) == true && Known(query.parser.args)
    ensures name == query.parser.args[0]
    ensures name == SET || name == GET || name == EXISTS || name == DEL || name == ECHO
  {
    hide S.Server.Valid, QueryReader.Valid, ReplyList.Valid;
    name := query.Argument(0);
  }

  /** Runs the procedure that the first argument names. */
  method ExecuteCommand(query: QueryReader, replies: ReplyList, server: S.Server, timeout: Timeout, now: nat)
    requires Ready(query, replies, server) == true && Known(query.parser.args)
    modifies replies.Repr, server.kvstore.Repr, server.expire.Repr
    ensures Ready(query, replies, server) == true && fresh(replies.Repr - old(replies.Repr))
    ensures |replies.blocks| <= old(|replies.blocks|) + 4
    ensures fresh(server.kvstore.Repr - old(server.kvstore.Repr)) && fresh(server.expire.Repr - old(server.expire.Repr))
    ensures server.View() == Next(old(server.View()), Event(now, Operation(timeout, query.parser.args)))
    ensures replies.Pending() == old(replies.Pending()) + ReplyTo(old(server.View()), query.parser.args, now)
  {
    hide Ready, Next, ReplyTo, Operation, QueryReader.Valid, ReplyList.Valid, S.Server.Valid, Joined, S.Server.View,
      ReplyList.Pending;
    var name := CommandName(query, replies, server);
    if name == SET { SetCommand(query, replies, server, timeout, now); }
    else if name == GET { GetCommand(query, replies, server, timeout, now); }
    else if name == EXISTS { ExistsCommand(query, replies, server, timeout, now); }
    else if name == ECHO { EchoCommand(query, replies, server, timeout, now); }
    else { DelCommand(query, replies, server, timeout, now); }
  }
}
